/** Ordinal string order and the two LINQ operators the server applies to
    lists: `OrderBy` (a stable sort by a string key) and `Distinct` with a key. */
module Ordering {

  /** Ordinal comparison: lexicographic by character code, a proper prefix first. */
  predicate Less(a: string, b: string)
    decreases |a|
  {
    if a == [] then b != []
    else if b == [] then false
    else a[0] < b[0] || (a[0] == b[0] && Less(a[1..], b[1..]))
  }

  predicate LessEq(a: string, b: string) {
    a == b || Less(a, b)
  }

  lemma {:induction false} LessIrreflexive(a: string)
    ensures !Less(a, a)
    decreases |a|
  {
    if a != [] {
      LessIrreflexive(a[1..]);
    }
  }

  lemma {:induction false} LessTransitive(a: string, b: string, c: string)
    requires Less(a, b) && Less(b, c)
    ensures Less(a, c)
    decreases |a|
  {
    if a != [] && a[0] == b[0] && b[0] == c[0] {
      LessTransitive(a[1..], b[1..], c[1..]);
    }
  }

  lemma {:induction false} LessTotal(a: string, b: string)
    ensures a == b || Less(a, b) || Less(b, a)
    decreases |a|
  {
    if a != [] && b != [] && a[0] == b[0] {
      LessTotal(a[1..], b[1..]);
      assert a == [a[0]] + a[1..] && b == [b[0]] + b[1..];
    }
  }

  lemma LessAsymmetric(a: string, b: string)
    requires Less(a, b)
    ensures !Less(b, a) && a != b
  {
    LessIrreflexive(a);
    if Less(b, a) {
      LessTransitive(a, b, a);
    }
  }

  lemma LessEqTransitive(a: string, b: string, c: string)
    requires LessEq(a, b) && LessEq(b, c)
    ensures LessEq(a, c)
  {
    if a != b && b != c {
      LessTransitive(a, b, c);
    }
  }

  // ---------------------------------------------------------------------
  // OrderBy

  /** Every element's key is at most every later element's key. */
  ghost predicate SortedBy<T>(s: seq<T>, key: T -> string) {
    forall i, j :: 0 <= i < j < |s| ==> LessEq(key(s[i]), key(s[j]))
  }

  /** Keys strictly increase: sorted and no two keys equal. */
  ghost predicate StrictlySortedBy<T>(s: seq<T>, key: T -> string) {
    forall i, j :: 0 <= i < j < |s| ==> Less(key(s[i]), key(s[j]))
  }

  /** Inserts `x` in front of the first element whose key is not below `x`'s. */
  function InsertBy<T>(x: T, s: seq<T>, key: T -> string): (r: seq<T>)
    ensures multiset(r) == multiset(s) + multiset{x}
    ensures |r| == |s| + 1
  {
    if s == [] || !Less(key(s[0]), key(x)) then [x] + s
    else
      assert s == [s[0]] + s[1..];
      [s[0]] + InsertBy(x, s[1..], key)
  }

  /** `OrderBy(key)`: a stable sort; the result is a permutation of the input. */
  function SortBy<T>(s: seq<T>, key: T -> string): (r: seq<T>)
    ensures multiset(r) == multiset(s)
    ensures |r| == |s|
  {
    if s == [] then []
    else
      assert s == [s[0]] + s[1..];
      InsertBy(s[0], SortBy(s[1..], key), key)
  }

  lemma {:induction false} InsertBySorted<T>(x: T, s: seq<T>, key: T -> string)
    requires SortedBy(s, key)
    ensures SortedBy(InsertBy(x, s, key), key)
    decreases |s|
  {
    var r := InsertBy(x, s, key);
    if s == [] || !Less(key(s[0]), key(x)) {
      forall j | 1 <= j < |r| ensures LessEq(key(x), key(r[j])) {
        LessTotal(key(x), key(s[0]));
        if j > 1 { LessEqTransitive(key(x), key(s[0]), key(s[j - 1])); }
      }
    } else {
      InsertBySorted(x, s[1..], key);
      var t := InsertBy(x, s[1..], key);
      assert r == [s[0]] + t;
      forall j | 0 <= j < |t| ensures LessEq(key(s[0]), key(t[j])) {
        assert t[j] in multiset(s[1..]) + multiset{x};
        if t[j] == x {
        } else {
          assert t[j] in s[1..];
          var k :| 0 <= k < |s[1..]| && s[1..][k] == t[j];
          assert s[k + 1] == t[j];
        }
      }
    }
  }

  /** `OrderBy` returns its input ordered by key. */
  lemma {:induction false} SortBySorted<T>(s: seq<T>, key: T -> string)
    ensures SortedBy(SortBy(s, key), key)
  {
    if s != [] {
      SortBySorted(s[1..], key);
      InsertBySorted(s[0], SortBy(s[1..], key), key);
    }
  }

  /** Sorting what is already sorted changes nothing. */
  lemma {:induction false} SortBySortedIsIdentity<T>(s: seq<T>, key: T -> string)
    requires SortedBy(s, key)
    ensures SortBy(s, key) == s
  {
    if s != [] {
      assert SortedBy(s[1..], key);
      SortBySortedIsIdentity(s[1..], key);
      if |s| > 1 {
        assert LessEq(key(s[0]), key(s[1]));
        LessIrreflexive(key(s[0]));
        if Less(key(s[1]), key(s[0])) { LessAsymmetric(key(s[0]), key(s[1])); }
      }
    }
  }

  /** When the keys are pairwise different, the sorted result has strictly increasing keys. */
  lemma SortByStrict<T>(s: seq<T>, key: T -> string)
    requires forall i, j :: 0 <= i < j < |s| ==> key(s[i]) != key(s[j])
    ensures StrictlySortedBy(SortBy(s, key), key)
  {
    var r := SortBy(s, key);
    SortBySorted(s, key);
    forall i, j | 0 <= i < j < |r| ensures Less(key(r[i]), key(r[j])) {
      PermutationKeepsKeysDistinct(s, r, key, i, j);
    }
  }

  /** A permutation of a list with pairwise different keys has pairwise different keys. */
  lemma PermutationKeepsKeysDistinct<T>(s: seq<T>, r: seq<T>, key: T -> string, i: nat, j: nat)
    requires multiset(r) == multiset(s)
    requires forall i, j :: 0 <= i < j < |s| ==> key(s[i]) != key(s[j])
    requires i < j < |r|
    ensures key(r[i]) != key(r[j])
  {
    if key(r[i]) == key(r[j]) {
      assert r[i] in multiset(s) && r[j] in multiset(s);
      var p :| 0 <= p < |s| && s[p] == r[i];
      var q :| 0 <= q < |s| && s[q] == r[j];
      if p == q {
        assert multiset(r)[r[i]] >= 2 by {
          assert r == r[..i] + [r[i]] + r[i + 1..j] + [r[j]] + r[j + 1..];
        }
        DuplicateKeys(s, s[p], key);
        assert false;
      } else {
        assert false;
      }
    }
  }

  /** An element occurring twice gives two positions with equal keys. */
  lemma DuplicateKeys<T>(s: seq<T>, x: T, key: T -> string)
    requires multiset(s)[x] >= 2
    ensures exists i, j :: 0 <= i < j < |s| && key(s[i]) == key(s[j])
  {
    var i :| 0 <= i < |s| && s[i] == x;
    assert multiset(s) == multiset(s[..i]) + multiset{x} + multiset(s[i + 1..]) by {
      assert s == s[..i] + [x] + s[i + 1..];
    }
    if x in s[i + 1..] {
      var k :| 0 <= k < |s[i + 1..]| && s[i + 1..][k] == x;
      assert key(s[i]) == key(s[i + 1 + k]);
    } else {
      assert x in s[..i];
      var k :| 0 <= k < i && s[..i][k] == x;
      assert key(s[k]) == key(s[i]);
    }
  }

  /** The key that orders strings by themselves (`OrderBy(name => name)`). */
  function Identity(s: string): string
  {
    s
  }

  /** The first element of a list sorted by itself is at most every element of the list. */
  lemma LeastOfSorted(s: seq<string>, x: string)
    requires SortedBy(s, Identity) && x in multiset(s)
    ensures s != [] && LessEq(s[0], x)
  {
    var j :| 0 <= j < |s| && s[j] == x;
    if j > 0 {
      assert LessEq(Identity(s[0]), Identity(s[j]));
    }
  }

  /** Two lists sorted by themselves with the same elements are the same list: what
      `OrderBy(name => name)` returns does not depend on the order of its input. */
  lemma {:induction false} SortedByIdentityUnique(a: seq<string>, b: seq<string>)
    requires SortedBy(a, Identity) && SortedBy(b, Identity) && multiset(a) == multiset(b)
    ensures a == b
    decreases |a|
  {
    if a == [] {
      assert |b| == |multiset(b)| == 0;
    } else {
      assert a[0] in multiset(b);
      LeastOfSorted(b, a[0]);
      assert b[0] in multiset(a);
      LeastOfSorted(a, b[0]);
      if a[0] != b[0] {
        LessAsymmetric(a[0], b[0]);
        assert false;
      }
      var a' := DropFirst(a);
      var b' := DropFirst(b);
      SortedByIdentityUnique(a', b');
    }
  }

  /** The rest of a sorted list after its first element: sorted, and the elements but that one. */
  lemma DropFirst(s: seq<string>) returns (t: seq<string>)
    requires SortedBy(s, Identity) && s != []
    ensures t == s[1..] && SortedBy(t, Identity)
    ensures multiset(t) == multiset(s) - multiset{s[0]}
  {
    t := s[1..];
    assert s == [s[0]] + t;
    forall i, j | 0 <= i < j < |t| ensures LessEq(Identity(t[i]), Identity(t[j])) {
      assert t[i] == s[i + 1] && t[j] == s[j + 1];
    }
  }

  /** Sorting names by themselves forgets the order they came in. */
  lemma SortByIdentityOfPermutation(a: seq<string>, b: seq<string>)
    requires multiset(a) == multiset(b)
    ensures SortBy(a, Identity) == SortBy(b, Identity)
  {
    SortBySorted(a, Identity);
    SortBySorted(b, Identity);
    SortedByIdentityUnique(SortBy(a, Identity), SortBy(b, Identity));
  }

  // ---------------------------------------------------------------------
  // Distinct

  /** `Distinct(comparer)`: keeps the first element of every key, in order.
      `seen` holds the keys already taken. */
  function DistinctBy<T>(s: seq<T>, key: T -> string, seen: set<string>): (r: seq<T>)
    ensures |r| <= |s|
    ensures forall i :: 0 <= i < |r| ==> r[i] in s && key(r[i]) !in seen
    ensures forall i, j :: 0 <= i < j < |r| ==> key(r[i]) != key(r[j])
  {
    if s == [] then []
    else if key(s[0]) in seen then DistinctBy(s[1..], key, seen)
    else
      var rest := DistinctBy(s[1..], key, seen + {key(s[0])});
      [s[0]] + rest
  }

  /** Every key of the input not already seen is kept, by its first occurrence. */
  lemma {:induction false} DistinctByKeepsFirst<T>(s: seq<T>, key: T -> string, seen: set<string>, i: nat)
    requires i < |s| && key(s[i]) !in seen
    requires forall k :: 0 <= k < i ==> key(s[k]) != key(s[i])
    ensures s[i] in DistinctBy(s, key, seen)
    decreases i
  {
    if i > 0 {
      if key(s[0]) in seen {
        DistinctByKeepsFirst(s[1..], key, seen, i - 1);
      } else {
        DistinctByKeepsFirst(s[1..], key, seen + {key(s[0])}, i - 1);
      }
    }
  }

  /** Every key of the input not already seen appears in the output. */
  lemma DistinctByComplete<T>(s: seq<T>, key: T -> string, seen: set<string>, i: nat)
    requires i < |s| && key(s[i]) !in seen
    ensures exists k :: 0 <= k < |DistinctBy(s, key, seen)| && key(DistinctBy(s, key, seen)[k]) == key(s[i])
  {
    var f := FirstWithKey(s, key, key(s[i]), i);
    DistinctByKeepsFirst(s, key, seen, f);
    var r := DistinctBy(s, key, seen);
    var k :| 0 <= k < |r| && r[k] == s[f];
  }

  /** The first position carrying the same key as position `i`. */
  lemma FirstWithKey<T>(s: seq<T>, key: T -> string, k: string, i: nat) returns (f: nat)
    requires i < |s| && key(s[i]) == k
    ensures f <= i && key(s[f]) == k
    ensures forall m :: 0 <= m < f ==> key(s[m]) != k
  {
    f := 0;
    while key(s[f]) != k
      invariant f <= i
      decreases i - f
      invariant forall m :: 0 <= m < f ==> key(s[m]) != k
    {
      f := f + 1;
    }
  }

  /** On input whose keys are already pairwise different and unseen, `Distinct` changes nothing. */
  lemma {:induction false} DistinctByIdentity<T>(s: seq<T>, key: T -> string, seen: set<string>)
    requires forall i, j :: 0 <= i < j < |s| ==> key(s[i]) != key(s[j])
    requires forall i :: 0 <= i < |s| ==> key(s[i]) !in seen
    ensures DistinctBy(s, key, seen) == s
  {
    if s != [] {
      DistinctByIdentity(s[1..], key, seen + {key(s[0])});
    }
  }
}
