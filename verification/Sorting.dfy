/** What the model relies on of Rust's library sorts and searches.

    `slice::sort_by`, `sort_unstable_by`, `partition_point` and `binary_search_by` enter
    only through the contracts below, so nothing depends on how ties are broken. */
module Sorting {
  import opened Wrappers

  ghost predicate TotalPreorder<T(!new)>(le: (T, T) -> bool) {
    && (forall a, b :: le(a, b) || le(b, a))
    && (forall a, b, c :: le(a, b) && le(b, c) ==> le(a, c))
  }

  ghost predicate Antisymmetric<T(!new)>(le: (T, T) -> bool) {
    forall a, b :: le(a, b) && le(b, a) ==> a == b
  }

  ghost predicate Sorted<T>(s: seq<T>, le: (T, T) -> bool) {
    forall i, j :: 0 <= i < j < |s| ==> le(s[i], s[j])
  }

  /** `slice::sort_unstable_by`: nothing is promised about the order of elements that tie. */
  method Sort<T(!new)>(s: seq<T>, le: (T, T) -> bool) returns (r: seq<T>)
    requires TotalPreorder(le)
    ensures Sorted(r, le) && multiset(r) == multiset(s)
  {
    r := StableSort(s, le);
  }

  /** How many elements satisfy `below`, when all of them come first. */
  method PartitionPoint<T>(s: seq<T>, below: T -> bool) returns (n: nat)
    requires forall i, j :: 0 <= i < j < |s| && below(s[j]) ==> below(s[i])
    ensures n <= |s|
    ensures forall i :: 0 <= i < n ==> below(s[i])
    ensures forall i :: n <= i < |s| ==> !below(s[i])
  {
    var low, high := 0, |s|;
    while low < high
      invariant 0 <= low <= high <= |s|
      invariant forall i :: 0 <= i < low ==> below(s[i])
      invariant forall i :: high <= i < |s| ==> !below(s[i])
    {
      var mid := (low + high) / 2;
      if below(s[mid]) {
        low := mid + 1;
      } else {
        high := mid;
      }
    }
    n := low;
  }

  lemma {:induction false} SameElements<T>(a: seq<T>, b: seq<T>)
    requires multiset(a) == multiset(b)
    ensures |a| == |b|
    ensures forall x :: x in a <==> x in b
  {
    assert |multiset(a)| == |multiset(b)|;
    forall x
      ensures x in a <==> x in b
    {
      assert x in a <==> x in multiset(a);
      assert x in b <==> x in multiset(b);
    }
  }

  /** Two sorted orders of the same elements agree position by position, up to ties. */
  lemma {:induction false} SortedAgree<T(!new)>(a: seq<T>, b: seq<T>, le: (T, T) -> bool)
    requires TotalPreorder(le) && Sorted(a, le) && Sorted(b, le) && multiset(a) == multiset(b)
    ensures |a| == |b|
    ensures forall i :: 0 <= i < |a| ==> le(a[i], b[i]) && le(b[i], a[i])
  {
    SameElements(a, b);
    forall i | 0 <= i < |a|
      ensures le(a[i], b[i]) && le(b[i], a[i])
    {
      NotAbove(a, b, le, i);
      NotAbove(b, a, le, i);
    }
  }

  /** The `i + 1` first of `b` cannot all be among the fewer elements of `a` strictly below `a[i]`. */
  lemma NotAbove<T(!new)>(a: seq<T>, b: seq<T>, le: (T, T) -> bool, i: nat)
    requires TotalPreorder(le) && Sorted(a, le) && Sorted(b, le) && multiset(a) == multiset(b)
    requires i < |a| == |b|
    ensures le(a[i], b[i])
  {
    if !le(a[i], b[i]) {
      var below := x => !le(a[i], x);
      forall j | 0 <= j <= i
        ensures below(b[j])
      {
        assert j == i || le(b[j], b[i]);
      }
      CountPrefix(b, below, i + 1);
      forall j | i <= j < |a|
        ensures !below(a[j])
      {
        assert le(a[i], a[i]);
      }
      CountSuffix(a, below, i);
      CountMultiset(a, b, below);
      assert false;
    }
  }

  ghost function Count<T>(s: seq<T>, p: T -> bool): nat {
    if s == [] then 0 else (if p(s[0]) then 1 else 0) + Count(s[1..], p)
  }

  lemma {:induction false} CountPrefix<T>(s: seq<T>, p: T -> bool, n: nat)
    requires n <= |s| && forall i :: 0 <= i < n ==> p(s[i])
    ensures Count(s, p) >= n
  {
    if n > 0 {
      CountPrefix(s[1..], p, n - 1);
    }
  }

  lemma {:induction false} CountSuffix<T>(s: seq<T>, p: T -> bool, n: nat)
    requires n <= |s| && forall i :: n <= i < |s| ==> !p(s[i])
    ensures Count(s, p) <= n
  {
    if s != [] {
      CountSuffix(s[1..], p, if n == 0 then 0 else n - 1);
    }
  }

  lemma {:induction false} CountRemove<T>(s: seq<T>, p: T -> bool, k: nat)
    requires k < |s|
    ensures Count(s, p) == Count(s[..k] + s[k + 1..], p) + if p(s[k]) then 1 else 0
  {
    if k == 0 {
      assert s[..0] + s[1..] == s[1..];
    } else {
      CountRemove(s[1..], p, k - 1);
      assert (s[..k] + s[k + 1..])[1..] == s[1..][..k - 1] + s[1..][k..];
    }
  }

  lemma Without<T>(s: seq<T>, k: nat)
    requires k < |s|
    ensures multiset(s[..k] + s[k + 1..]) == multiset(s) - multiset{s[k]}
  {
    assert s == s[..k] + [s[k]] + s[k + 1..];
  }

  lemma {:induction false} CountMultiset<T>(a: seq<T>, b: seq<T>, p: T -> bool)
    requires multiset(a) == multiset(b)
    ensures Count(a, p) == Count(b, p)
  {
    hide Count;
    SameElements(a, b);
    if a == [] {
      assert b == a;
    } else {
      assert a[0] in b;
      var k :| 0 <= k < |b| && b[k] == a[0];
      Without(b, k);
      Without(a, 0);
      CountMultiset(a[..0] + a[1..], b[..k] + b[k + 1..], p);
      CountRemove(a, p, 0);
      CountRemove(b, p, k);
    }
  }

  // ---- two elements at different places

  lemma AnotherElement<T>(s: seq<T>, i: nat, j: nat)
    requires i < |s| && j < |s| && i != j
    ensures s[j] in multiset(s) - multiset{s[i]}
  {
    Without(s, i);
    var rest := s[..i] + s[i + 1..];
    assert rest[if j < i then j else j - 1] == s[j];
    assert s[j] in multiset(rest);
  }

  lemma TwoPositions<T>(s: seq<T>, a: T, b: T) returns (i: nat, j: nat)
    requires a in s && b in multiset(s) - multiset{a}
    ensures i < |s| && j < |s| && i != j && s[i] == a && s[j] == b
  {
    i :| 0 <= i < |s| && s[i] == a;
    Without(s, i);
    var rest := s[..i] + s[i + 1..];
    assert b in rest;
    var k :| 0 <= k < |rest| && rest[k] == b;
    j := if k < i then k else k + 1;
  }

  ghost predicate SomePair<T>(s: seq<T>, related: (T, T) -> bool) {
    exists i, j :: 0 <= i < j < |s| && related(s[i], s[j])
  }

  ghost predicate Symmetric<T(!new)>(related: (T, T) -> bool) {
    forall a, b :: related(a, b) ==> related(b, a)
  }

  /** Whether some two elements are related does not depend on the order they are listed in. */
  lemma SomePairAnyOrder<T(!new)>(a: seq<T>, b: seq<T>, related: (T, T) -> bool)
    requires Symmetric(related) && multiset(a) == multiset(b)
    ensures SomePair(a, related) <==> SomePair(b, related)
  {
    if SomePair(a, related) {
      PairMoves(a, b, related);
    }
    if SomePair(b, related) {
      PairMoves(b, a, related);
    }
  }

  lemma PairMoves<T(!new)>(a: seq<T>, b: seq<T>, related: (T, T) -> bool)
    requires Symmetric(related) && multiset(a) == multiset(b) && SomePair(a, related)
    ensures SomePair(b, related)
  {
    SameElements(a, b);
    var i, j :| 0 <= i < j < |a| && related(a[i], a[j]);
    AnotherElement(a, i, j);
    var k, l := TwoPositions(b, a[i], a[j]);
    assert related(b[k], b[l]) && related(b[l], b[k]);
    assert k < l || l < k;
  }

  // ---- ties

  ghost predicate Tied<T>(s: seq<T>, le: (T, T) -> bool) {
    exists i, j :: 0 <= i < j < |s| && le(s[i], s[j]) && le(s[j], s[i])
  }

  lemma TiedAnyOrder<T(!new)>(a: seq<T>, b: seq<T>, le: (T, T) -> bool)
    requires multiset(a) == multiset(b)
    ensures Tied(a, le) <==> Tied(b, le)
  {
    var tie := (x: T, y: T) => le(x, y) && le(y, x);
    SomePairAnyOrder(a, b, tie);
    TiedIsPair(a, le, tie);
    TiedIsPair(b, le, tie);
  }

  lemma TiedIsPair<T>(s: seq<T>, le: (T, T) -> bool, tie: (T, T) -> bool)
    requires forall x, y :: x in s && y in s ==> tie(x, y) == (le(x, y) && le(y, x))
    ensures Tied(s, le) <==> SomePair(s, tie)
  {
    if Tied(s, le) {
      var i, j :| 0 <= i < j < |s| && le(s[i], s[j]) && le(s[j], s[i]);
      assert s[i] in s && s[j] in s && tie(s[i], s[j]);
    }
    if SomePair(s, tie) {
      var i, j :| 0 <= i < j < |s| && tie(s[i], s[j]);
      assert s[i] in s && s[j] in s;
    }
  }

  /** In order, some two tie exactly when two neighbours do. */
  lemma NeighboursTie<T(!new)>(s: seq<T>, le: (T, T) -> bool)
    requires TotalPreorder(le) && Sorted(s, le)
    ensures Tied(s, le) <==> exists i :: 0 <= i < |s| - 1 && le(s[i + 1], s[i])
  {
    if Tied(s, le) {
      var i, j :| 0 <= i < j < |s| && le(s[i], s[j]) && le(s[j], s[i]);
      assert i + 1 == j || le(s[i + 1], s[j]);
      assert le(s[i + 1], s[i]);
    }
    if i :| 0 <= i < |s| - 1 && le(s[i + 1], s[i]) {
      assert le(s[i], s[i + 1]) && le(s[i + 1], s[i]);
    }
  }

  /** The first two neighbours that tie, if any two do. */
  method FirstTie<T(!new)>(s: seq<T>, le: (T, T) -> bool) returns (found: Option<nat>)
    requires TotalPreorder(le) && Sorted(s, le)
    ensures found.None? <==> !Tied(s, le)
    ensures found.Some? ==> found.value + 1 < |s| && le(s[found.value + 1], s[found.value])
    ensures found.Some? ==> forall i, j :: 0 <= i < j <= found.value ==> !le(s[j], s[i])
  {
    NeighboursTie(s, le);
    var i := 0;
    while i + 1 < |s|
      invariant forall k :: 0 <= k < i && k < |s| - 1 ==> !le(s[k + 1], s[k])
    {
      if le(s[i + 1], s[i]) {
        NoEarlierTie(s, le, i);
        return Some(i);
      }
      i := i + 1;
    }
    return None;
  }

  lemma NoEarlierTie<T(!new)>(s: seq<T>, le: (T, T) -> bool, n: nat)
    requires TotalPreorder(le) && Sorted(s, le) && n < |s|
    requires forall k :: 0 <= k < n ==> !le(s[k + 1], s[k])
    ensures forall i, j :: 0 <= i < j <= n ==> !le(s[j], s[i])
  {
    forall i, j | 0 <= i < j <= n
      ensures !le(s[j], s[i])
    {
      assert i + 1 == j || le(s[i + 1], s[j]);
      assert !le(s[i + 1], s[i]);
    }
  }

  /** Without ties there is only one sorted order. */
  lemma SortedUnique<T(!new)>(a: seq<T>, b: seq<T>, le: (T, T) -> bool)
    requires TotalPreorder(le) && Sorted(a, le) && Sorted(b, le) && multiset(a) == multiset(b) && !Tied(a, le)
    ensures a == b
  {
    SortedAgree(a, b, le);
    SameElements(a, b);
    forall i | 0 <= i < |a|
      ensures a[i] == b[i]
    {
      assert b[i] in a;
      var k :| 0 <= k < |a| && a[k] == b[i];
      assert le(a[i], a[k]) && le(a[k], a[i]);
      assert i < k || k < i || i == k;
    }
  }

  // ---- searching

  /** `binary_search_by`: what is below comes first and what is above last. */
  method BinarySearch<T>(s: seq<T>, below: T -> bool, above: T -> bool) returns (found: Option<nat>)
    requires forall i, j :: 0 <= i < j < |s| && below(s[j]) ==> below(s[i])
    requires forall i, j :: 0 <= i < j < |s| && above(s[i]) ==> above(s[j])
    ensures found.Some? ==> found.value < |s| && !below(s[found.value]) && !above(s[found.value])
    ensures found.None? ==> forall i :: 0 <= i < |s| ==> below(s[i]) || above(s[i])
  {
    var low, high := 0, |s|;
    while low < high
      invariant 0 <= low <= high <= |s|
      invariant forall i :: 0 <= i < low ==> below(s[i])
      invariant forall i :: high <= i < |s| ==> above(s[i])
    {
      var mid := (low + high) / 2;
      if below(s[mid]) {
        low := mid + 1;
      } else if above(s[mid]) {
        high := mid;
      } else {
        return Some(mid);
      }
    }
    return None;
  }

  // ---- what each element contributes

  /** Everything the elements contribute, in order. */
  function Flat<T, U>(f: T -> seq<U>, s: seq<T>): seq<U> {
    if s == [] then [] else f(s[0]) + Flat(f, s[1..])
  }

  lemma {:induction false} FlatConcat<T, U>(f: T -> seq<U>, a: seq<T>, b: seq<T>)
    ensures Flat(f, a + b) == Flat(f, a) + Flat(f, b)
  {
    if a == [] {
      assert a + b == b;
    } else {
      assert (a + b)[0] == a[0] && (a + b)[1..] == a[1..] + b;
      FlatConcat(f, a[1..], b);
      assert f(a[0]) + (Flat(f, a[1..]) + Flat(f, b)) == (f(a[0]) + Flat(f, a[1..])) + Flat(f, b);
    }
  }

  lemma FlatOneMore<T, U>(f: T -> seq<U>, s: seq<T>, n: nat)
    requires n < |s|
    ensures Flat(f, s[..n + 1]) == Flat(f, s[..n]) + f(s[n])
  {
    assert s[..n + 1] == s[..n] + [s[n]];
    FlatConcat(f, s[..n], [s[n]]);
    assert Flat(f, [s[n]]) == f(s[n]) + Flat(f, []);
  }

  lemma FlatRemove<T, U>(f: T -> seq<U>, s: seq<T>, k: nat)
    requires k < |s|
    ensures multiset(Flat(f, s)) == multiset(Flat(f, s[..k] + s[k + 1..])) + multiset(f(s[k]))
  {
    hide Flat;
    FlatConcat(f, s[..k], s[k + 1..]);
    FlatConcat(f, s[..k], s[k..]);
    assert s == s[..k] + s[k..];
    FlatFirst(f, s[k..]);
    assert s[k..][1..] == s[k + 1..];
  }

  lemma FlatFirst<T, U>(f: T -> seq<U>, s: seq<T>)
    requires s != []
    ensures Flat(f, s) == f(s[0]) + Flat(f, s[1..])
  {
  }

  /** What the elements contribute together does not depend on their order. */
  lemma {:induction false} FlatAnyOrder<T, U>(f: T -> seq<U>, a: seq<T>, b: seq<T>)
    requires multiset(a) == multiset(b)
    ensures multiset(Flat(f, a)) == multiset(Flat(f, b))
  {
    hide Flat;
    SameElements(a, b);
    if a == [] {
      assert b == a;
    } else {
      assert a[0] in b;
      var k :| 0 <= k < |b| && b[k] == a[0];
      Without(b, k);
      Without(a, 0);
      FlatAnyOrder(f, a[..0] + a[1..], b[..k] + b[k + 1..]);
      FlatRemove(f, a, 0);
      FlatRemove(f, b, k);
    }
  }

  // ---- sorting that keeps ties in the order they came

  function InsertInto<T>(s: seq<T>, x: T, le: (T, T) -> bool): seq<T> {
    if s == [] || le(s[|s| - 1], x) then s + [x] else InsertInto(s[..|s| - 1], x, le) + [s[|s| - 1]]
  }

  /** `slice::sort_by`. */
  function Stable<T>(s: seq<T>, le: (T, T) -> bool): seq<T> {
    if s == [] then [] else InsertInto(Stable(s[..|s| - 1], le), s[|s| - 1], le)
  }

  lemma SortedOneMore<T>(s: seq<T>, x: T, le: (T, T) -> bool)
    requires Sorted(s, le) && forall y :: y in s ==> le(y, x)
    ensures Sorted(s + [x], le)
  {
    forall i, j | 0 <= i < j < |s + [x]|
      ensures le((s + [x])[i], (s + [x])[j])
    {
      assert s[i] in s;
    }
  }

  lemma LastIsMost<T(!new)>(s: seq<T>, le: (T, T) -> bool)
    requires TotalPreorder(le) && Sorted(s, le) && s != []
    ensures forall y :: y in s ==> le(y, s[|s| - 1])
    ensures Sorted(s[..|s| - 1], le) && multiset(s) == multiset(s[..|s| - 1]) + multiset{s[|s| - 1]}
  {
    var n := |s| - 1;
    assert s == s[..n] + [s[n]];
    forall y | y in s
      ensures le(y, s[n])
    {
      var i :| 0 <= i < |s| && s[i] == y;
      assert i == n || le(s[i], s[n]);
    }
  }

  lemma {:induction false} InsertIntoSorted<T(!new)>(s: seq<T>, x: T, le: (T, T) -> bool)
    requires TotalPreorder(le) && Sorted(s, le)
    ensures Sorted(InsertInto(s, x, le), le) && multiset(InsertInto(s, x, le)) == multiset(s) + multiset{x}
  {
    hide Sorted;
    if s == [] {
      SortedNone(le);
      SortedOneMore([], x, le);
    } else {
      var n := |s| - 1;
      LastIsMost(s, le);
      if le(s[n], x) {
        SortedOneMore(s, x, le);
      } else {
        var front := InsertInto(s[..n], x, le);
        InsertIntoSorted(s[..n], x, le);
        forall y | y in front
          ensures le(y, s[n])
        {
          assert s == s[..n] + [s[n]];
          assert y in multiset(s[..n]) + multiset{x};
          assert y in s || y == x;
        }
        SortedOneMore(front, s[n], le);
      }
    }
  }

  lemma SortedNone<T>(le: (T, T) -> bool)
    ensures Sorted([], le)
  {
  }

  lemma {:induction false} StableSorts<T(!new)>(s: seq<T>, le: (T, T) -> bool)
    requires TotalPreorder(le)
    ensures Sorted(Stable(s, le), le) && multiset(Stable(s, le)) == multiset(s)
  {
    hide InsertInto;
    if s != [] {
      var n := |s| - 1;
      StableSorts(s[..n], le);
      InsertIntoSorted(Stable(s[..n], le), s[n], le);
      assert s == s[..n] + [s[n]];
    }
  }

  /** The elements that tie with `x`, in order. */
  function Ties<T>(s: seq<T>, x: T, le: (T, T) -> bool): seq<T> {
    if s == [] then []
    else
      var last := s[|s| - 1];
      Ties(s[..|s| - 1], x, le) + if le(last, x) && le(x, last) then [last] else []
  }

  lemma TiesOneMore<T>(s: seq<T>, y: T, x: T, le: (T, T) -> bool)
    ensures Ties(s + [y], x, le) == Ties(s, x, le) + if le(y, x) && le(x, y) then [y] else []
  {
    assert (s + [y])[..|s|] == s;
  }

  lemma {:induction false} InsertKeepsTies<T(!new)>(s: seq<T>, y: T, x: T, le: (T, T) -> bool)
    requires TotalPreorder(le)
    ensures Ties(InsertInto(s, y, le), x, le) == Ties(s + [y], x, le)
  {
    if s != [] && !le(s[|s| - 1], y) {
      hide Ties, InsertInto;
      var n := |s| - 1;
      InsertKeepsTies(s[..n], y, x, le);
      InsertUnfold(s, y, le);
      TiesOneMore(InsertInto(s[..n], y, le), s[n], x, le);
      TiesOneMore(s[..n], y, x, le);
      TiesOneMore(s[..n], s[n], x, le);
      assert s[..n] + [s[n]] == s;
      TiesOneMore(s, y, x, le);
      assert le(y, s[n]);
    }
  }

  lemma InsertUnfold<T>(s: seq<T>, y: T, le: (T, T) -> bool)
    requires s != [] && !le(s[|s| - 1], y)
    ensures InsertInto(s, y, le) == InsertInto(s[..|s| - 1], y, le) + [s[|s| - 1]]
  {
  }

  /** Elements that tie stay in the order they came. */
  lemma {:induction false} StableKeepsTies<T(!new)>(s: seq<T>, x: T, le: (T, T) -> bool)
    requires TotalPreorder(le)
    ensures Ties(Stable(s, le), x, le) == Ties(s, x, le)
  {
    hide InsertInto;
    if s != [] {
      var n := |s| - 1;
      StableKeepsTies(s[..n], x, le);
      InsertKeepsTies(Stable(s[..n], le), s[n], x, le);
      TiesOneMore(Stable(s[..n], le), s[n], x, le);
    }
  }

  method StableSort<T(!new)>(s: seq<T>, le: (T, T) -> bool) returns (r: seq<T>)
    requires TotalPreorder(le)
    ensures r == Stable(s, le) && Sorted(r, le) && multiset(r) == multiset(s)
  {
    r := [];
    for n := 0 to |s|
      invariant r == Stable(s[..n], le)
    {
      assert s[..n + 1][..n] == s[..n];
      r := InsertInto(r, s[n], le);
    }
    assert s[..|s|] == s;
    StableSorts(s, le);
  }

  // ---- sorting what must not repeat

  predicate Alike<T>(a: T, b: T, le: (T, T) -> bool) {
    le(a, b) && le(b, a)
  }

  /** Two places hold something alike `x`. */
  ghost predicate Repeated<T>(s: seq<T>, x: T, le: (T, T) -> bool) {
    exists i, j :: 0 <= i < j < |s| && Alike(s[i], x, le) && Alike(s[j], x, le)
  }

  /** What sorting a list and refusing a repetition gives: the only sorted order, or the least that repeats. */
  ghost predicate Sorts<T(!new)>(s: seq<T>, le: (T, T) -> bool, r: Result<seq<T>, T>) {
    match r
    case Ok(sorted) => Sorted(sorted, le) && multiset(sorted) == multiset(s) && !Tied(s, le)
    case Err(x) => Repeated(s, x, le) && forall y :: Repeated(s, y, le) ==> le(x, y)
  }

  lemma RepeatedMoves<T(!new)>(a: seq<T>, b: seq<T>, x: T, le: (T, T) -> bool)
    requires multiset(a) == multiset(b)
    ensures Repeated(a, x, le) <==> Repeated(b, x, le)
  {
    var both := (y: T, z: T) => Alike(y, x, le) && Alike(z, x, le);
    SomePairAnyOrder(a, b, both);
    RepeatedIsPair(a, x, le, both);
    RepeatedIsPair(b, x, le, both);
  }

  lemma RepeatedIsPair<T>(s: seq<T>, x: T, le: (T, T) -> bool, both: (T, T) -> bool)
    requires forall y, z :: y in s && z in s ==> both(y, z) == (Alike(y, x, le) && Alike(z, x, le))
    ensures Repeated(s, x, le) <==> SomePair(s, both)
  {
    if Repeated(s, x, le) {
      var i, j :| 0 <= i < j < |s| && Alike(s[i], x, le) && Alike(s[j], x, le);
      assert s[i] in s && s[j] in s && both(s[i], s[j]);
    }
    if SomePair(s, both) {
      var i, j :| 0 <= i < j < |s| && both(s[i], s[j]);
      assert s[i] in s && s[j] in s;
    }
  }

  lemma LeastRepeated<T(!new)>(s: seq<T>, sorted: seq<T>, le: (T, T) -> bool, n: nat)
    requires TotalPreorder(le) && Sorted(sorted, le) && multiset(sorted) == multiset(s)
    requires n + 1 < |sorted| && le(sorted[n + 1], sorted[n])
    requires forall i, j :: 0 <= i < j <= n ==> !le(sorted[j], sorted[i])
    ensures Sorts(s, le, Err(sorted[n]))
  {
    var x := sorted[n];
    assert le(x, sorted[n + 1]) && le(x, x);
    assert Alike(sorted[n], x, le) && Alike(sorted[n + 1], x, le);
    RepeatedMoves(sorted, s, x, le);
    forall y | Repeated(s, y, le)
      ensures le(x, y)
    {
      RepeatedMoves(sorted, s, y, le);
      var i, j :| 0 <= i < j < |sorted| && Alike(sorted[i], y, le) && Alike(sorted[j], y, le);
      assert le(sorted[j], sorted[i]);
      assert n + 1 <= j;
      assert le(x, sorted[j]);
    }
  }

  method SortDistinct<T(!new)>(s: seq<T>, le: (T, T) -> bool) returns (r: Result<seq<T>, T>)
    requires TotalPreorder(le)
    ensures Sorts(s, le, r)
  {
    var sorted := Sort(s, le);
    TiedAnyOrder(sorted, s, le);
    var tie := FirstTie(sorted, le);
    if tie.Some? {
      LeastRepeated(s, sorted, le, tie.value);
      return Err(sorted[tie.value]);
    }
    return Ok(sorted);
  }

  lemma RepeatedTies<T(!new)>(s: seq<T>, le: (T, T) -> bool)
    requires TotalPreorder(le)
    ensures Tied(s, le) <==> exists x :: Repeated(s, x, le)
  {
    if Tied(s, le) {
      var i, j :| 0 <= i < j < |s| && le(s[i], s[j]) && le(s[j], s[i]);
      assert le(s[i], s[i]);
      assert Alike(s[i], s[i], le) && Alike(s[j], s[i], le);
      assert Repeated(s, s[i], le);
    }
    if x :| Repeated(s, x, le) {
      var i, j :| 0 <= i < j < |s| && Alike(s[i], x, le) && Alike(s[j], x, le);
      assert le(s[i], s[j]) && le(s[j], s[i]);
    }
  }

  /** Sorting and refusing repetitions gives the same in whatever order the elements come; a refusal names
      something alike. */
  lemma SortsAlike<T(!new)>(a: seq<T>, b: seq<T>, le: (T, T) -> bool, p: Result<seq<T>, T>, q: Result<seq<T>, T>)
    requires TotalPreorder(le) && multiset(a) == multiset(b) && Sorts(a, le, p) && Sorts(b, le, q)
    ensures p.Ok? <==> q.Ok?
    ensures p.Ok? ==> p == q
    ensures p.Err? && q.Err? ==> Alike(p.error, q.error, le)
  {
    hide Repeated, Tied, Sorted;
    RepeatedTies(a, le);
    RepeatedTies(b, le);
    TiedAnyOrder(a, b, le);
    if p.Ok? && q.Ok? {
      TiedAnyOrder(a, p.value, le);
      SortedUnique(p.value, q.value, le);
    } else if p.Err? && q.Err? {
      RepeatedMoves(a, b, p.error, le);
      RepeatedMoves(a, b, q.error, le);
    }
  }
}
