/**
 * Python's ordering of `str` values (lexicographic by code point, a proper
 * prefix first) and `sorted()` of a set of strings.
 */
module Sorting {

  /** `a < b` on Python strings. */
  predicate Less(a: string, b: string)
    decreases |a|
  {
    if |a| == 0 then |b| > 0
    else |b| > 0 && (a[0] < b[0] || (a[0] == b[0] && Less(a[1..], b[1..])))
  }

  lemma {:induction false} LessIrreflexive(a: string)
    ensures !Less(a, a)
    decreases |a|
  {
    if |a| > 0 {
      LessIrreflexive(a[1..]);
    }
  }

  lemma {:induction false} LessTransitive(a: string, b: string, c: string)
    requires Less(a, b) && Less(b, c)
    ensures Less(a, c)
    decreases |a|
  {
    if |a| > 0 && a[0] == b[0] && b[0] == c[0] {
      LessTransitive(a[1..], b[1..], c[1..]);
    }
  }

  lemma {:induction false} LessTotal(a: string, b: string)
    requires a != b
    ensures Less(a, b) || Less(b, a)
    decreases |a|
  {
    if |a| > 0 && |b| > 0 && a[0] == b[0] {
      assert a == [a[0]] + a[1..] && b == [b[0]] + b[1..];
      LessTotal(a[1..], b[1..]);
    }
  }

  lemma {:induction false} LessAsymmetric(a: string, b: string)
    requires Less(a, b)
    ensures !Less(b, a)
  {
    if Less(b, a) {
      LessTransitive(a, b, a);
      LessIrreflexive(a);
    }
  }

  /** Ascending without repeats: what `sorted()` of a set produces. */
  predicate StrictlySorted(s: seq<string>) {
    forall i, j :: 0 <= i < j < |s| ==> Less(s[i], s[j])
  }

  lemma PrependSorted(x: string, s: seq<string>)
    requires StrictlySorted(s)
    requires forall y :: y in s ==> Less(x, y)
    ensures StrictlySorted([x] + s)
  {
    var r := [x] + s;
    forall i, j | 0 <= i < j < |r| ensures Less(r[i], r[j]) {
      if i == 0 {
        assert r[j] == s[j - 1];
      } else {
        assert r[i] == s[i - 1] && r[j] == s[j - 1];
      }
    }
  }

  /** Inserts `x` into a strictly sorted sequence, keeping it strictly sorted. */
  function Insert(s: seq<string>, x: string): (r: seq<string>)
    requires StrictlySorted(s)
    ensures StrictlySorted(r)
    ensures forall y :: y in r <==> y in s || y == x
    ensures |r| == if x in s then |s| else |s| + 1
    decreases |s|
  {
    if |s| == 0 then [x]
    else if x == s[0] then s
    else if Less(x, s[0]) then
      assert forall y :: y in s ==> Less(x, y) by {
        forall y | y in s ensures Less(x, y) {
          if y != s[0] {
            LessTransitive(x, s[0], y);
          }
        }
      }
      PrependSorted(x, s);
      assert x !in s by { LessIrreflexive(x); }
      [x] + s
    else
      var t := Insert(s[1..], x);
      assert Less(s[0], x) by { LessTotal(x, s[0]); }
      PrependSorted(s[0], t);
      assert s == [s[0]] + s[1..];
      assert s[0] !in s[1..] by { LessIrreflexive(s[0]); }
      [s[0]] + t
  }

  /** The strictly sorted sequence of the elements of `s`: Python's `sorted(list(s))`. */
  ghost function SortedOf(s: set<string>): (r: seq<string>)
    ensures StrictlySorted(r)
    ensures forall y :: y in r <==> y in s
    ensures |r| == |s|
    decreases |s|
  {
    if s == {} then []
    else
      var x :| x in s;
      Insert(SortedOf(s - {x}), x)
  }

  function Elems(s: seq<string>): set<string> {
    set x | x in s
  }

  lemma InsertElems(s: seq<string>, x: string)
    requires StrictlySorted(s)
    ensures Elems(Insert(s, x)) == Elems(s) + {x}
  {
  }

  lemma {:induction false} SortedCard(s: seq<string>)
    requires StrictlySorted(s)
    ensures |Elems(s)| == |s|
    decreases |s|
  {
    if |s| > 0 {
      SortedCard(s[1..]);
      assert Elems(s) == {s[0]} + Elems(s[1..]);
      assert s[0] !in s[1..] by { LessIrreflexive(s[0]); }
    }
  }

  /** A set has only one strictly sorted listing. */
  lemma {:induction false} SortedUnique(a: seq<string>, b: seq<string>)
    requires StrictlySorted(a) && StrictlySorted(b)
    requires forall y :: y in a <==> y in b
    ensures a == b
    decreases |a|
  {
    assert Elems(a) == Elems(b);
    SortedCard(a);
    SortedCard(b);
    if |a| > 0 {
      assert a[0] in b;
      assert |b| > 0;
      if a[0] != b[0] {
        assert b[0] in a;
        var i :| 0 < i < |a| && a[i] == b[0];
        var j :| 0 < j < |b| && b[j] == a[0];
        assert Less(a[0], a[i]) && Less(b[0], b[j]);
        LessAsymmetric(a[0], b[0]);
        assert false;
      }
      forall y ensures y in a[1..] <==> y in b[1..] {
        if y in a[1..] {
          var i :| 1 <= i < |a| && a[i] == y;
          assert Less(a[0], y);
          LessIrreflexive(y);
          assert y in b;
        }
        if y in b[1..] {
          var j :| 1 <= j < |b| && b[j] == y;
          assert Less(b[0], y);
          LessIrreflexive(y);
          assert y in a;
        }
      }
      SortedUnique(a[1..], b[1..]);
      assert a == [a[0]] + a[1..] && b == [b[0]] + b[1..];
    }
  }

  /** The `n` smallest elements of `s` in ascending order: `sorted(list(s))[:n]`. */
  ghost function SmallestOf(s: set<string>, n: nat): seq<string> {
    var all := SortedOf(s);
    if |all| <= n then all else all[..n]
  }

  /**
   * The first `n` of the sorted listing are strictly ascending, `min(n, |s|)`
   * many, drawn from `s`, all of `s` when it is small enough, and each smaller than
   * every element left out.
   */
  lemma SmallestOfSpec(s: set<string>, n: nat)
    ensures StrictlySorted(SmallestOf(s, n)) && |SmallestOf(s, n)| == if |s| <= n then |s| else n
    ensures forall t :: t in SmallestOf(s, n) ==> t in s
    ensures |s| <= n ==> forall t :: t in s ==> t in SmallestOf(s, n)
    ensures forall t, u :: t in s && t !in SmallestOf(s, n) && u in SmallestOf(s, n) ==> Less(u, t)
  {
    var all := SortedOf(s);
    var first := SmallestOf(s, n);
    if |all| > n {
      forall t, u | t in s && t !in first && u in first ensures Less(u, t) {
        var k :| 0 <= k < |all| && all[k] == t;
        var j :| 0 <= j < n && first[j] == u;
        assert forall m :: 0 <= m < n ==> all[m] in first;
        assert j < k;
      }
    }
  }
}
