/** Small stock wrapper used for lookups and failed reads. */
module Wrappers {
  datatype Option<+T> = None | Some(value: T)
}

/**
 * The parts of Python's `str` that the two scripts use: `strip()`, `lower()`,
 * the substring test `in`, `startswith`, `replace`, `split` and `join`.
 * Strings are sequences of Unicode code points, as in Python 3.
 */
module Strings {
  import opened Wrappers

  /** Python's `str.isspace()`: the characters `strip()` removes and `\s` matches. */
  predicate IsSpace(c: char) {
    || ('\t' <= c <= '\r')
    || ('\U{1C}' <= c <= '\U{1F}')
    || c == ' ' || c == '\U{85}' || c == '\U{A0}' || c == '\U{1680}'
    || ('\U{2000}' <= c <= '\U{200A}')
    || c == '\U{2028}' || c == '\U{2029}' || c == '\U{202F}' || c == '\U{205F}' || c == '\U{3000}'
  }

  predicate IsUpper(c: char) {
    'A' <= c <= 'Z'
  }

  /** `lower()` on one character, restricted to ASCII letters. */
  function LowerChar(c: char): (r: char)
    ensures !IsUpper(r)
    ensures !IsUpper(c) ==> r == c
  {
    if IsUpper(c) then (c as int + 32) as char else c
  }

  function Lower(s: string): (r: string)
    ensures |r| == |s|
    ensures forall i :: 0 <= i < |s| ==> r[i] == LowerChar(s[i])
  {
    seq(|s|, i requires 0 <= i < |s| => LowerChar(s[i]))
  }

  /** Replaces every occurrence of the character `a` by `b`. */
  function MapChar(s: string, a: char, b: char): (r: string)
    ensures |r| == |s|
    ensures forall i :: 0 <= i < |s| ==> r[i] == if s[i] == a then b else s[i]
  {
    seq(|s|, i requires 0 <= i < |s| => if s[i] == a then b else s[i])
  }

  predicate StartsWith(s: string, p: string) {
    |p| <= |s| && s[..|p|] == p
  }

  predicate EndsWith(s: string, p: string) {
    |p| <= |s| && s[|s| - |p|..] == p
  }

  /** Python's `p in s` for strings: `p` occurs in `s` as a contiguous substring. */
  predicate Contains(s: string, p: string)
    decreases |s|
  {
    StartsWith(s, p) || (|s| > 0 && Contains(s[1..], p))
  }

  /** `p` occurs in `s` starting at index `k`. */
  predicate OccursAt(s: string, k: nat, p: string) {
    k + |p| <= |s| && s[k..k + |p|] == p
  }

  /** Index of the first occurrence of `p` in `s`, as `str.find` gives it. */
  function Find(s: string, p: string): (r: Option<nat>)
    ensures r.None? <==> !Contains(s, p)
    ensures r.Some? ==> OccursAt(s, r.value, p)
    ensures r.Some? ==> forall k: nat :: k < r.value ==> !OccursAt(s, k, p)
    decreases |s|
  {
    if StartsWith(s, p) then Some(0)
    else if |s| == 0 then None
    else match Find(s[1..], p)
      case None => None
      case Some(i) =>
        assert OccursAt(s, i + 1, p) && forall k: nat :: k <= i ==> !OccursAt(s, k, p) by {
          OccursShift(s, i + 1, p);
          forall k: nat | 1 <= k <= i ensures !OccursAt(s, k, p) {
            OccursShift(s, k, p);
          }
        }
        Some(i + 1)
  }

  /** An occurrence at `k >= 1` is an occurrence at `k - 1` in the tail. */
  lemma OccursShift(s: string, k: nat, p: string)
    requires 1 <= k && |s| > 0
    ensures OccursAt(s, k, p) == OccursAt(s[1..], k - 1, p)
  {
    var t := s[1..];
    if k + |p| <= |s| {
      var here, there := s[k..k + |p|], t[k - 1..k - 1 + |p|];
      forall j | 0 <= j < |p| ensures here[j] == there[j] {
        assert s[k + j] == t[k - 1 + j];
      }
      assert here == there;
    } else {
      assert k - 1 + |p| > |t|;
    }
  }

  lemma {:induction false} ContainsLength(s: string, p: string)
    requires Contains(s, p)
    ensures |p| <= |s|
    decreases |s|
  {
    if !StartsWith(s, p) {
      ContainsLength(s[1..], p);
    }
  }

  lemma ShortNotContained(s: string, p: string)
    requires |s| < |p|
    ensures !Contains(s, p)
  {
    if Contains(s, p) {
      ContainsLength(s, p);
    }
  }

  /** An occurrence at any index makes the pattern a substring. */
  lemma {:induction false} OccursContains(s: string, k: nat, p: string)
    requires OccursAt(s, k, p)
    ensures Contains(s, p)
    decreases k
  {
    if k == 0 {
      assert s[..|p|] == s[0..|p|];
    } else {
      OccursShift(s, k, p);
      OccursContains(s[1..], k - 1, p);
    }
  }

  /** A string in which `p` occurs at no index does not contain `p`. */
  lemma NoOccurrence(s: string, p: string)
    requires forall k: nat :: !OccursAt(s, k, p)
    ensures !Contains(s, p)
  {
    var f := Find(s, p);
  }

  /** An index where a contained pattern occurs. */
  lemma {:induction false} OccurrenceOf(s: string, p: string) returns (k: nat)
    requires Contains(s, p)
    ensures OccursAt(s, k, p)
    decreases |s|
  {
    if StartsWith(s, p) {
      k := 0;
      assert s[..|p|] == s[0..|p|];
    } else {
      var j := OccurrenceOf(s[1..], p);
      OccursShift(s, j + 1, p);
      k := j + 1;
    }
  }

  lemma SliceOfSlice(s: string, i: nat, j: nat, m: nat, e: nat)
    requires i <= j <= |s| && m <= e <= j - i
    ensures s[i..j][m..e] == s[i + m..i + e]
  {
    var inner, outer := s[i..j][m..e], s[i + m..i + e];
    forall q | 0 <= q < e - m ensures inner[q] == outer[q] {
      assert inner[q] == s[i + m + q];
    }
  }

  /** The substring relation is transitive. */
  lemma ContainsTrans(a: string, b: string, c: string)
    requires Contains(a, b) && Contains(b, c)
    ensures Contains(a, c)
  {
    var k := OccurrenceOf(a, b);
    var m := OccurrenceOf(b, c);
    SliceOfSlice(a, k, k + |b|, m, m + |c|);
    OccursContains(a, k + m, c);
  }

  /** A pattern holding a character the text lacks does not occur in the text. */
  lemma {:induction false} MissingCharNotContained(s: string, p: string, c: char)
    requires c in p && c !in s
    ensures !Contains(s, p)
    decreases |s|
  {
    if |p| <= |s| {
      assert forall x :: x in s[..|p|] ==> x in s;
    }
    if |s| > 0 {
      MissingCharNotContained(s[1..], p, c);
    }
  }

  /** An occurrence in a suffix is an occurrence in the whole string. */
  lemma {:induction false} ContainsInSuffix(s: string, k: nat, p: string)
    requires k <= |s|
    ensures Contains(s[k..], p) ==> Contains(s, p)
    decreases k
  {
    if k > 0 {
      assert s[1..][k - 1..] == s[k..];
      ContainsInSuffix(s[1..], k - 1, p);
    }
  }

  /** An occurrence in a prefix is an occurrence in the whole string. */
  lemma {:induction false} ContainsInPrefix(s: string, k: nat, p: string)
    requires k <= |s|
    ensures Contains(s[..k], p) ==> Contains(s, p)
    decreases k
  {
    if StartsWith(s[..k], p) {
      assert s[..|p|] == s[..k][..|p|];
    } else if k > 0 {
      assert s[..k][1..] == s[1..][..k - 1];
      ContainsInPrefix(s[1..], k - 1, p);
    }
  }

  /** A string holds at least as many copies of a character as any substring of it. */
  lemma {:induction false} ContainsCount(s: string, p: string, c: char)
    requires Contains(s, p)
    ensures multiset(p)[c] <= multiset(s)[c]
    decreases |s|
  {
    if StartsWith(s, p) {
      CountConcat(p, s[|p|..], c);
      PrefixSuffix(s, |p|);
    } else {
      ContainsCount(s[1..], p, c);
      CountConcat(s[..1], s[1..], c);
      PrefixSuffix(s, 1);
    }
  }

  lemma NotInPrefix(s: string, k: nat, p: string)
    requires k <= |s| && !Contains(s, p)
    ensures !Contains(s[..k], p)
  {
    ContainsInPrefix(s, k, p);
  }

  lemma NotInSuffix(s: string, k: nat, p: string)
    requires k <= |s| && !Contains(s, p)
    ensures !Contains(s[k..], p)
  {
    ContainsInSuffix(s, k, p);
  }

  /**
   * Python's `s.replace(pat, rep)` for a non-empty `pat`: occurrences are
   * found from the left, replaced, and the search resumes after each one.
   * A string without the pattern comes back unchanged.
   */
  function Replace(s: string, pat: string, rep: string): (r: string)
    requires |pat| > 0
    ensures !Contains(s, pat) ==> r == s
    decreases |s|
  {
    if |s| < |pat| then s
    else if s[..|pat|] == pat then rep + Replace(s[|pat|..], pat, rep)
    else
      assert !Contains(s, pat) ==> !Contains(s[1..], pat);
      assert [s[0]] + s[1..] == s;
      [s[0]] + Replace(s[1..], pat, rep)
  }

  lemma NoEarlierInTail(s: string, pat: string)
    requires |pat| < |s|
    requires forall k: nat :: k < |s| - |pat| ==> !OccursAt(s, k, pat)
    ensures forall k: nat :: k < |s| - 1 - |pat| ==> !OccursAt(s[1..], k, pat)
  {
    forall k: nat | k < |s| - 1 - |pat| ensures !OccursAt(s[1..], k, pat) {
      OccursShift(s, k + 1, pat);
    }
  }

  /**
   * When the only occurrence of `pat` is the one that ends `s`, `replace`
   * swaps just that suffix.
   */
  lemma {:induction false} ReplaceAtEnd(s: string, pat: string, rep: string)
    requires |pat| > 0 && |pat| <= |s| && OccursAt(s, |s| - |pat|, pat)
    requires forall k: nat :: k < |s| - |pat| ==> !OccursAt(s, k, pat)
    ensures Replace(s, pat, rep) == s[..|s| - |pat|] + rep
    decreases |s|
  {
    if |s| == |pat| {
      assert s[..|pat|] == pat;
      assert s[|pat|..] == "";
    } else {
      assert !OccursAt(s, 0, pat);
      var t := s[1..];
      ReplaceSkip(s, pat, rep);
      OccursShift(s, |s| - |pat|, pat);
      NoEarlierInTail(s, pat);
      ReplaceAtEnd(t, pat, rep);
      ConsPrefix(s, |s| - |pat|);
      assert [s[0]] + (t[..|t| - |pat|] + rep) == ([s[0]] + t[..|t| - |pat|]) + rep;
    }
  }

  /** Where `pat` does not start `s`, `replace` keeps the first character. */
  lemma ReplaceSkip(s: string, pat: string, rep: string)
    requires 0 < |pat| <= |s| && !OccursAt(s, 0, pat)
    ensures Replace(s, pat, rep) == [s[0]] + Replace(s[1..], pat, rep)
  {
    assert s[..|pat|] == s[0..|pat|];
  }

  lemma ConsPrefix(s: string, n: nat)
    requires 0 < n <= |s|
    ensures s[..n] == [s[0]] + s[1..][..n - 1]
  {
  }

  /**
   * A string holding the pattern is changed by `replace` whenever the
   * replacement starts with a different character than the pattern.
   */
  lemma {:induction false} ReplacePresent(s: string, pat: string, rep: string)
    requires |pat| > 0 && |rep| > 0 && rep[0] != pat[0] && Contains(s, pat)
    ensures Replace(s, pat, rep) != s
    decreases |s|
  {
    ContainsLength(s, pat);
    if s[..|pat|] == pat {
      assert Replace(s, pat, rep)[0] == rep[0] != s[0];
    } else {
      assert !StartsWith(s, pat);
      ReplacePresent(s[1..], pat, rep);
      var t := Replace(s[1..], pat, rep);
      assert Replace(s, pat, rep) == [s[0]] + t;
      assert ([s[0]] + t)[1..] == t;
    }
  }

  /** An occurrence with none before it is what `Find` returns. */
  lemma FindAt(s: string, p: string, j: nat)
    requires OccursAt(s, j, p) && forall k: nat :: k < j ==> !OccursAt(s, k, p)
    ensures Find(s, p) == Some(j)
  {
    OccursContains(s, j, p);
  }

  lemma AppendParts(a: string, b: string)
    ensures (a + b)[..|a|] == a && (a + b)[|a|..] == b
  {
  }

  lemma PrefixSuffix(s: string, n: nat)
    requires n <= |s|
    ensures s[..n] + s[n..] == s
  {
  }

  /** Occurrences of a character in a concatenation add up. */
  lemma CountConcat(a: string, b: string, c: char)
    ensures multiset(a + b)[c] == multiset(a)[c] + multiset(b)[c]
  {
  }

  /** Replacing a prefix and the rest by pieces with the same count keeps the count. */
  lemma CountSplice(s: string, n: nat, head: string, tail: string, c: char)
    requires n <= |s|
    requires multiset(head)[c] == multiset(s[..n])[c] && multiset(tail)[c] == multiset(s[n..])[c]
    ensures multiset(head + tail)[c] == multiset(s)[c]
  {
    CountConcat(head, tail, c);
    CountConcat(s[..n], s[n..], c);
    PrefixSuffix(s, n);
  }

  /** `replace` keeps the count of a character that neither pattern nor replacement holds. */
  lemma {:induction false} ReplaceKeepsCount(s: string, pat: string, rep: string, c: char)
    requires |pat| > 0 && c !in pat && c !in rep
    ensures multiset(Replace(s, pat, rep))[c] == multiset(s)[c]
    decreases |s|
  {
    if |s| < |pat| {
    } else if s[..|pat|] == pat {
      ReplaceKeepsCount(s[|pat|..], pat, rep, c);
      CountSplice(s, |pat|, rep, Replace(s[|pat|..], pat, rep), c);
    } else {
      ReplaceKeepsCount(s[1..], pat, rep, c);
      assert [s[0]] == s[..1];
      CountSplice(s, 1, [s[0]], Replace(s[1..], pat, rep), c);
    }
  }

  /** Replacing a one-character pattern by one character is a character map. */
  lemma {:induction false} ReplaceOneChar(s: string, a: char, b: char)
    ensures Replace(s, [a], [b]) == MapChar(s, a, b)
    decreases |s|
  {
    if |s| > 0 {
      ReplaceOneChar(s[1..], a, b);
      assert s[..1] == [s[0]];
      assert s[1..] == s[|[a]|..];
    }
  }

  /** Python's `lstrip()`: drops the leading run of whitespace. */
  function LStrip(s: string): string
    decreases |s|
  {
    if |s| > 0 && IsSpace(s[0]) then LStrip(s[1..]) else s
  }

  /** `lstrip()` keeps a suffix that does not start with a space, and drops only spaces. */
  lemma {:induction false} LStripSpec(s: string)
    ensures var r := LStrip(s);
      && |r| <= |s| && r == s[|s| - |r|..]
      && (|r| > 0 ==> !IsSpace(r[0]))
      && (forall i :: 0 <= i < |s| - |r| ==> IsSpace(s[i]))
    decreases |s|
  {
    if |s| > 0 && IsSpace(s[0]) {
      LStripSpec(s[1..]);
    }
  }

  /** Python's `rstrip()`: drops the trailing run of whitespace. */
  function RStrip(s: string): string
    decreases |s|
  {
    if |s| > 0 && IsSpace(s[|s| - 1]) then RStrip(s[..|s| - 1]) else s
  }

  /** `rstrip()` keeps a prefix that does not end with a space, and drops only spaces. */
  lemma {:induction false} RStripSpec(s: string)
    ensures var r := RStrip(s);
      && |r| <= |s| && r == s[..|r|]
      && (|r| > 0 ==> !IsSpace(r[|r| - 1]))
      && (forall i :: |r| <= i < |s| ==> IsSpace(s[i]))
    decreases |s|
  {
    if |s| > 0 && IsSpace(s[|s| - 1]) {
      RStripSpec(s[..|s| - 1]);
    }
  }

  /** Python's `strip()` with no argument. */
  function Strip(s: string): (r: string)
    ensures |r| > 0 ==> !IsSpace(r[0]) && !IsSpace(r[|r| - 1])
  {
    LStripSpec(s);
    RStripSpec(LStrip(s));
    RStrip(LStrip(s))
  }

  /** What `strip()` keeps is a contiguous part of the string. */
  lemma StripInside(s: string)
    ensures Contains(s, Strip(s))
  {
    var t := LStrip(s);
    var r := RStrip(t);
    LStripSpec(s);
    RStripSpec(t);
    assert s[|s| - |t|..][..|r|] == s[|s| - |t|..|s| - |t| + |r|];
    OccursContains(s, |s| - |t|, r);
  }

  /** A string that starts with a non-space prefix still starts with it after `strip()`. */
  lemma StripKeepsPrefix(s: string, p: string)
    requires StartsWith(s, p) && |p| > 0
    requires forall i :: 0 <= i < |p| ==> !IsSpace(p[i])
    ensures StartsWith(Strip(s), p)
  {
    assert s[0] == p[0] && s[|p| - 1] == p[|p| - 1];
    StripKeepsHead(s, |p| - 1);
  }

  /** Stripping a string whose first and `k`-th characters are not spaces keeps `s[..k + 1]`. */
  lemma StripKeepsHead(s: string, k: nat)
    requires k < |s| && !IsSpace(s[0]) && !IsSpace(s[k])
    ensures k < |Strip(s)| && Strip(s)[..k + 1] == s[..k + 1]
  {
    assert LStrip(s) == s;
    var r := RStrip(s);
    RStripSpec(s);
    assert |r| > k;
  }

  /** A string opening with the fence `---` still opens with it after `strip()`. */
  lemma FenceSurvivesStrip(s: string)
    requires StartsWith(s, "---")
    ensures StartsWith(Strip(s), "---")
  {
    StripKeepsPrefix(s, "---");
  }

  /** Python's `sep.join(ls)`. */
  function Join(ls: seq<string>, sep: string): (r: string)
    ensures forall c :: c !in sep && (forall i :: 0 <= i < |ls| ==> c !in ls[i]) ==> c !in r
    decreases |ls|
  {
    if |ls| == 0 then ""
    else if |ls| == 1 then ls[0]
    else ls[0] + sep + Join(ls[1..], sep)
  }

  /** Every piece occurs in the join. */
  lemma {:induction false} JoinContains(ls: seq<string>, sep: string, i: nat)
    requires i < |ls|
    ensures Contains(Join(ls, sep), ls[i])
    decreases |ls|
  {
    var r := Join(ls, sep);
    if i == 0 {
      assert r[0..|ls[0]|] == ls[0];
      OccursContains(r, 0, ls[0]);
    } else {
      var rest := Join(ls[1..], sep);
      JoinContains(ls[1..], sep, i - 1);
      assert r[|ls[0]| + |sep|..] == rest;
      ContainsInSuffix(r, |ls[0]| + |sep|, ls[i]);
    }
  }

  /** Python's `s.split(sep)` for a one-character separator. */
  function Split(s: string, sep: char): (r: seq<string>)
    ensures |r| >= 1
    ensures forall i :: 0 <= i < |r| ==> sep !in r[i]
    decreases |s|
  {
    if |s| == 0 then [""]
    else
      var rest := Split(s[1..], sep);
      if s[0] == sep then [""] + rest else [[s[0]] + rest[0]] + rest[1..]
  }

  /** `split` yields one more piece than there are separators. */
  lemma {:induction false} SplitCount(s: string, sep: char)
    ensures |Split(s, sep)| == multiset(s)[sep] + 1
    decreases |s|
  {
    if |s| > 0 {
      SplitCount(s[1..], sep);
      assert s == [s[0]] + s[1..];
      assert multiset(s) == multiset([s[0]]) + multiset(s[1..]);
    }
  }

  lemma {:induction false} SplitFront(a: string, t: string, sep: char)
    requires sep !in a
    ensures Split(a + t, sep) == [a + Split(t, sep)[0]] + Split(t, sep)[1..]
    decreases |a|
  {
    if |a| > 0 {
      assert (a + t)[1..] == a[1..] + t;
      SplitFront(a[1..], t, sep);
      assert [a[0]] + (a[1..] + Split(t, sep)[0]) == a + Split(t, sep)[0];
    } else {
      assert a + t == t;
      assert a + Split(t, sep)[0] == Split(t, sep)[0];
      assert [Split(t, sep)[0]] + Split(t, sep)[1..] == Split(t, sep);
    }
  }

  /** Splitting a join of separator-free pieces gives the pieces back. */
  lemma {:induction false} SplitJoin(ls: seq<string>, sep: char)
    requires |ls| >= 1
    requires forall i :: 0 <= i < |ls| ==> sep !in ls[i]
    ensures Split(Join(ls, [sep]), sep) == ls
    decreases |ls|
  {
    if |ls| == 1 {
      SplitFront(ls[0], "", sep);
      assert ls[0] + "" == ls[0];
    } else {
      var rest := Join(ls[1..], [sep]);
      SplitJoin(ls[1..], sep);
      assert Join(ls, [sep]) == ls[0] + ([sep] + rest);
      SplitFront(ls[0], [sep] + rest, sep);
      assert ([sep] + rest)[1..] == rest;
      assert Split([sep] + rest, sep) == [""] + ls[1..];
      assert ls[0] + "" == ls[0];
      assert [ls[0]] + ls[1..] == ls;
    }
  }

  /** Index of the first element equal to `x`, as Python's `list.index` (None where it raises). */
  function IndexOf<T(==)>(s: seq<T>, x: T): (r: Option<nat>)
    ensures r.None? <==> x !in s
    ensures r.Some? ==> r.value < |s| && s[r.value] == x && x !in s[..r.value]
    decreases |s|
  {
    if |s| == 0 then None
    else if s[0] == x then Some(0)
    else match IndexOf(s[1..], x)
      case None => None
      case Some(i) =>
        assert s[..i + 1] == [s[0]] + s[1..][..i];
        Some(i + 1)
  }
}
