// Facts about sequences without repeated elements and about index ranges,
// shared by the answer checks, the shuffle and the auto-submit rule.

module Sequences {

  /** No element occurs twice. */
  ghost predicate NoDup<T>(s: seq<T>)
  {
    forall i, j :: 0 <= i < j < |s| ==> s[i] != s[j]
  }

  ghost function Elements<T>(s: seq<T>): set<T>
  {
    set x | x in s
  }

  /** Two sequences have the same elements exactly when each includes the other's. */
  lemma ElementsEqualIff<T>(a: seq<T>, b: seq<T>)
    ensures Elements(a) == Elements(b) <==> (forall x :: x in a ==> x in b) && (forall x :: x in b ==> x in a)
  {
    if Elements(a) == Elements(b) {
      forall x | x in a ensures x in b {
        assert x in Elements(a);
      }
      forall x | x in b ensures x in a {
        assert x in Elements(b);
      }
    }
  }

  /** A sequence without repeats has as many distinct elements as positions. */
  lemma {:induction false} NoDupCardinality<T>(s: seq<T>)
    requires NoDup(s)
    ensures |Elements(s)| == |s|
  {
    if s != [] {
      var tail := s[1..];
      assert NoDup(tail) by {
        forall i, j | 0 <= i < j < |tail| ensures tail[i] != tail[j] {
          assert tail[i] == s[i + 1] && tail[j] == s[j + 1];
        }
      }
      NoDupCardinality(tail);
      forall k | 0 <= k < |tail| ensures tail[k] != s[0] {
        assert tail[k] == s[k + 1];
      }
      assert Elements(s) == Elements(tail) + {s[0]} by {
        assert s == [s[0]] + tail;
      }
    }
  }

  /** The indices `0 .. n-1`. */
  ghost function IndexRange(n: nat): (r: set<nat>)
    ensures forall i: nat :: i in r <==> i < n
  {
    if n == 0 then {} else IndexRange(n - 1) + {n - 1}
  }

  lemma {:induction false} IndexRangeCardinality(n: nat)
    ensures |IndexRange(n)| == n
  {
    if n > 0 {
      IndexRangeCardinality(n - 1);
      assert IndexRange(n) == IndexRange(n - 1) + {n - 1};
    }
  }

  /** A set of indices below `n` has at most `n` elements. */
  lemma IndexSubsetCardinality(s: set<nat>, n: nat)
    requires forall i :: i in s ==> i < n
    ensures |s| <= n
  {
    assert s <= IndexRange(n);
    IndexRangeCardinality(n);
    SubsetCardinality(s, IndexRange(n));
  }

  lemma {:induction false} SubsetCardinality<T>(a: set<T>, b: set<T>)
    requires a <= b
    ensures |a| <= |b|
    decreases |b|
  {
    if a != {} {
      var x :| x in a;
      SubsetCardinality(a - {x}, b - {x});
    }
  }

  /** How many of the first `k` flags are set. */
  function CountTrue(flags: seq<bool>, k: nat): (c: nat)
    requires k <= |flags|
    ensures c <= k
  {
    if k == 0 then 0 else CountTrue(flags, k - 1) + (if flags[k - 1] then 1 else 0)
  }

  ghost function TrueBelow(flags: seq<bool>, k: nat): set<nat>
    requires k <= |flags|
  {
    set i: nat | i < k && flags[i]
  }

  /** The count is the number of positions whose flag is set. */
  lemma {:induction false} CountTrueIsCardinality(flags: seq<bool>, k: nat)
    requires k <= |flags|
    ensures CountTrue(flags, k) == |TrueBelow(flags, k)|
  {
    if k > 0 {
      CountTrueIsCardinality(flags, k - 1);
      if flags[k - 1] {
        assert TrueBelow(flags, k) == TrueBelow(flags, k - 1) + {k - 1};
      } else {
        assert TrueBelow(flags, k) == TrueBelow(flags, k - 1);
      }
    }
  }
}
