/** Sequence helpers shared by the model: distinctness, order-preserving
    filters, the lexicographic order on integer keys and the stable
    insertion sort that stands for the database's ORDER BY. */
module Common {

  datatype Option<+T> = None | Some(value: T)

  datatype Result<+T, +E> = Ok(value: T) | Err(error: E)

  function Min(a: int, b: int): int { if a <= b then a else b }

  function Max(a: int, b: int): int { if a <= b then b else a }

  /** The set of elements of a sequence. */
  function Elems<T>(s: seq<T>): set<T> { set x | x in s }

  lemma ElemsAppend<T>(a: seq<T>, b: seq<T>)
    ensures Elems(a + b) == Elems(a) + Elems(b)
  {
  }

  /** No element occurs twice. */
  predicate Distinct<T(==)>(s: seq<T>) {
    forall i, j :: 0 <= i < j < |s| ==> s[i] != s[j]
  }

  /** A sequence is distinct exactly when no element has multiplicity above one. */
  lemma {:induction false} DistinctMultiset<T>(s: seq<T>)
    ensures Distinct(s) <==> forall x :: multiset(s)[x] <= 1
  {
    if s == [] {
    } else {
      var t := s[1..];
      assert s == [s[0]] + t;
      DistinctMultiset(t);
      if Distinct(s) {
        assert Distinct(t) by {
          forall i, j | 0 <= i < j < |t| ensures t[i] != t[j] { assert t[i] == s[i + 1] && t[j] == s[j + 1]; }
        }
        assert s[0] !in t by {
          forall k | 0 <= k < |t| ensures t[k] != s[0] { assert t[k] == s[k + 1]; }
        }
        forall x ensures multiset(s)[x] <= 1 {
          assert multiset(s)[x] == multiset([s[0]])[x] + multiset(t)[x];
        }
      } else {
        var i, j :| 0 <= i < j < |s| && s[i] == s[j];
        var x := s[i];
        if i == 0 {
          assert t[j - 1] == x;
          assert multiset(t)[x] >= 1;
          assert multiset(s)[x] == 1 + multiset(t)[x];
        } else {
          assert t[i - 1] == x && t[j - 1] == x;
          assert !Distinct(t);
          var y :| multiset(t)[y] > 1;
          assert multiset(s)[y] >= multiset(t)[y];
        }
      }
    }
  }

  /** A sub-multiset of a distinct sequence is itself distinct. */
  lemma DistinctSubMultiset<T>(small: seq<T>, big: seq<T>)
    requires Distinct(big) && multiset(small) <= multiset(big)
    ensures Distinct(small)
  {
    DistinctMultiset(big);
    DistinctMultiset(small);
    forall x ensures multiset(small)[x] <= 1 { assert multiset(small)[x] <= multiset(big)[x]; }
  }

  /** A distinct sequence has as many elements as its set. */
  lemma {:induction false} DistinctCard<T>(s: seq<T>)
    requires Distinct(s)
    ensures |Elems(s)| == |s|
  {
    if s != [] {
      var t := s[..|s| - 1];
      var x := s[|s| - 1];
      assert s == t + [x];
      assert Distinct(t) by {
        forall i, j | 0 <= i < j < |t| ensures t[i] != t[j] { assert t[i] == s[i] && t[j] == s[j]; }
      }
      DistinctCard(t);
      assert x !in Elems(t) by {
        forall k | 0 <= k < |t| ensures t[k] != x { assert t[k] == s[k]; }
      }
      assert Elems(s) == Elems(t) + {x};
    }
  }

  /** A sequence never has more distinct elements than entries. */
  lemma {:induction false} ElemsCard<T>(s: seq<T>)
    ensures |Elems(s)| <= |s|
  {
    if s != [] {
      var t := s[..|s| - 1];
      assert s == t + [s[|s| - 1]];
      assert Elems(s) == Elems(t) + {s[|s| - 1]};
      ElemsCard(t);
    }
  }

  /** The elements of `s` that satisfy `p`, in their original order. */
  function Filter<T(!new)>(s: seq<T>, p: T -> bool): (r: seq<T>)
    ensures |r| <= |s|
  {
    if s == [] then []
    else
      var rest := Filter(s[..|s| - 1], p);
      var x := s[|s| - 1];
      if p(x) then rest + [x] else rest
  }

  /** `Filter` keeps every element that satisfies `p`, as often as it occurs,
      and nothing else. */
  lemma {:induction false} FilterSpec<T(!new)>(s: seq<T>, p: T -> bool)
    ensures forall x :: multiset(Filter(s, p))[x] == if p(x) then multiset(s)[x] else 0
    ensures forall x :: x in Filter(s, p) <==> x in s && p(x)
  {
    if s != [] {
      FilterSpec(s[..|s| - 1], p);
      assert s == s[..|s| - 1] + [s[|s| - 1]];
    }
  }

  lemma FilterAppend<T(!new)>(a: seq<T>, b: seq<T>, p: T -> bool)
    ensures Filter(a + b, p) == Filter(a, p) + Filter(b, p)
    decreases |b|
  {
    if b == [] {
      assert a + b == a;
    } else {
      var b' := b[..|b| - 1];
      assert (a + b)[..|a + b| - 1] == a + b';
      FilterAppend(a, b', p);
    }
  }

  /** Lexicographic order on integer sequences; a proper prefix comes first. */
  predicate LexLess(a: seq<int>, b: seq<int>) {
    |b| > 0 && (|a| == 0 || a[0] < b[0] || (a[0] == b[0] && LexLess(a[1..], b[1..])))
  }

  lemma {:induction false} LexIrreflexive(a: seq<int>)
    ensures !LexLess(a, a)
  {
    if |a| > 0 { LexIrreflexive(a[1..]); }
  }

  lemma {:induction false} LexTransitive(a: seq<int>, b: seq<int>, c: seq<int>)
    requires LexLess(a, b) && LexLess(b, c)
    ensures LexLess(a, c)
  {
    if |a| > 0 && a[0] == b[0] && b[0] == c[0] {
      LexTransitive(a[1..], b[1..], c[1..]);
    }
  }

  lemma {:induction false} LexTotal(a: seq<int>, b: seq<int>)
    ensures a == b || LexLess(a, b) || LexLess(b, a)
  {
    if |a| > 0 && |b| > 0 && a[0] == b[0] {
      LexTotal(a[1..], b[1..]);
      if a[1..] == b[1..] {
        assert a == [a[0]] + a[1..] && b == [b[0]] + b[1..];
      }
    }
  }

  /** "Not less than" is transitive: the order is total. */
  lemma LexNotLessTransitive(a: seq<int>, b: seq<int>, c: seq<int>)
    requires !LexLess(b, a) && !LexLess(c, b)
    ensures !LexLess(c, a)
  {
    LexTotal(a, b);
    if LexLess(a, b) && LexLess(c, a) {
      LexTransitive(c, a, b);
    }
  }

  /** Keys never decrease along `s`. */
  predicate SortedBy<T>(s: seq<T>, key: T -> seq<int>) {
    forall i, j :: 0 <= i < j < |s| ==> !LexLess(key(s[j]), key(s[i]))
  }

  /** Inserts `x` after every element whose key is not greater than its own. */
  function InsertBy<T>(x: T, s: seq<T>, key: T -> seq<int>): (r: seq<T>)
    ensures |r| == |s| + 1
  {
    if s == [] then [x]
    else if LexLess(key(x), key(s[0])) then [x] + s
    else [s[0]] + InsertBy(x, s[1..], key)
  }

  lemma {:induction false} InsertByPermutation<T>(x: T, s: seq<T>, key: T -> seq<int>)
    ensures multiset(InsertBy(x, s, key)) == multiset(s) + multiset{x}
  {
    if s != [] && !LexLess(key(x), key(s[0])) {
      InsertByPermutation(x, s[1..], key);
      assert s == [s[0]] + s[1..];
    }
  }

  /** Stable insertion sort by key: the model of an SQL `ORDER BY`. */
  function SortBy<T>(s: seq<T>, key: T -> seq<int>): (r: seq<T>)
    ensures |r| == |s|
  {
    if s == [] then []
    else InsertBy(s[|s| - 1], SortBy(s[..|s| - 1], key), key)
  }

  /** The sort rearranges its input: same elements, same multiplicities. */
  lemma {:induction false} SortByPermutation<T>(s: seq<T>, key: T -> seq<int>)
    ensures multiset(SortBy(s, key)) == multiset(s)
  {
    if s != [] {
      SortByPermutation(s[..|s| - 1], key);
      InsertByPermutation(s[|s| - 1], SortBy(s[..|s| - 1], key), key);
      assert s == s[..|s| - 1] + [s[|s| - 1]];
    }
  }

  /** Putting in front an element whose key is not above any key of a
      sorted sequence keeps it sorted. */
  lemma SortedCons<T>(y: T, s: seq<T>, key: T -> seq<int>)
    requires SortedBy(s, key)
    requires forall k :: 0 <= k < |s| ==> !LexLess(key(s[k]), key(y))
    ensures SortedBy([y] + s, key)
  {
    var r := [y] + s;
    forall i, j | 0 <= i < j < |r| ensures !LexLess(key(r[j]), key(r[i])) {
      assert r[j] == s[j - 1];
      if i > 0 {
        assert r[i] == s[i - 1];
      }
    }
  }

  lemma SortedTail<T>(s: seq<T>, key: T -> seq<int>)
    requires s != [] && SortedBy(s, key)
    ensures SortedBy(s[1..], key)
    ensures forall k :: 0 <= k < |s[1..]| ==> !LexLess(key(s[1..][k]), key(s[0]))
  {
    var t := s[1..];
    forall i, j | 0 <= i < j < |t| ensures !LexLess(key(t[j]), key(t[i])) { assert t[i] == s[i + 1] && t[j] == s[j + 1]; }
    forall k | 0 <= k < |t| ensures !LexLess(key(t[k]), key(s[0])) { assert t[k] == s[k + 1]; }
  }

  lemma {:induction false} InsertBySorted<T>(x: T, s: seq<T>, key: T -> seq<int>)
    requires SortedBy(s, key)
    ensures SortedBy(InsertBy(x, s, key), key)
  {
    if s == [] {
    } else if LexLess(key(x), key(s[0])) {
      LexAsym(key(x), key(s[0]));
      forall k | 0 <= k < |s| ensures !LexLess(key(s[k]), key(x)) {
        assert !LexLess(key(s[k]), key(s[0])) by {
          if k > 0 { assert 0 <= 0 < k < |s|; }
          else { LexIrreflexive(key(s[0])); }
        }
        LexNotLessTransitive(key(x), key(s[0]), key(s[k]));
      }
      SortedCons(x, s, key);
    } else {
      var t := s[1..];
      var rt := InsertBy(x, t, key);
      SortedTail(s, key);
      InsertBySorted(x, t, key);
      InsertByPermutation(x, t, key);
      forall k | 0 <= k < |rt| ensures !LexLess(key(rt[k]), key(s[0])) {
        assert rt[k] in multiset(rt);
        if rt[k] != x {
          assert rt[k] in multiset(t);
          var m :| 0 <= m < |t| && t[m] == rt[k];
        }
      }
      SortedCons(s[0], rt, key);
    }
  }

  lemma LexAsym(a: seq<int>, b: seq<int>)
    requires LexLess(a, b)
    ensures !LexLess(b, a)
  {
    if LexLess(b, a) {
      LexTransitive(a, b, a);
      LexIrreflexive(a);
    }
  }

  /** The result of `SortBy` is in key order. */
  lemma {:induction false} SortBySorted<T>(s: seq<T>, key: T -> seq<int>)
    ensures SortedBy(SortBy(s, key), key)
  {
    if s != [] {
      SortBySorted(s[..|s| - 1], key);
      InsertBySorted(s[|s| - 1], SortBy(s[..|s| - 1], key), key);
    }
  }

  /** Inserting an element no smaller than every key appends it. */
  lemma {:induction false} InsertByLast<T>(x: T, s: seq<T>, key: T -> seq<int>)
    requires forall k :: 0 <= k < |s| ==> !LexLess(key(x), key(s[k]))
    ensures InsertBy(x, s, key) == s + [x]
  {
    if s != [] {
      assert forall k :: 0 <= k < |s| - 1 ==> s[1..][k] == s[k + 1];
      InsertByLast(x, s[1..], key);
      assert s == [s[0]] + s[1..];
    }
  }

  /** Dropping the last element keeps the order, and the last key is not
      below any earlier one. */
  lemma SortedByInit<T>(t: seq<T>, x: T, key: T -> seq<int>)
    requires SortedBy(t + [x], key)
    ensures SortedBy(t, key)
    ensures forall k :: 0 <= k < |t| ==> !LexLess(key(x), key(t[k]))
  {
    var s := t + [x];
    forall i, j | 0 <= i < j < |t| ensures !LexLess(key(t[j]), key(t[i])) { assert t[i] == s[i] && t[j] == s[j]; }
    forall k | 0 <= k < |t| ensures !LexLess(key(x), key(t[k])) { assert t[k] == s[k] && x == s[|t|]; }
  }

  /** Sorting an input that is already in key order leaves it unchanged. */
  lemma {:induction false} SortByIdentity<T>(s: seq<T>, key: T -> seq<int>)
    requires SortedBy(s, key)
    ensures SortBy(s, key) == s
  {
    if s != [] {
      var t := s[..|s| - 1];
      var x := s[|s| - 1];
      assert s == t + [x];
      assert SortBy(t, key) == t by {
        SortedByInit(t, x, key);
        SortByIdentity(t, key);
      }
      assert InsertBy(x, t, key) == t + [x] by {
        SortedByInit(t, x, key);
        InsertByLast(x, t, key);
      }
    }
  }
}
