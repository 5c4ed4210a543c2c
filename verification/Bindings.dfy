/** Which module exports are authoring intrinsics: the checked binding set of
    `crates/intlify_authoring_js/src/binding.rs`. */
module Bindings {
  import opened Wrappers
  import opened Orders
  import opened Sorting

  /** Intrinsics are ordered as they are declared: `intent`, `mf2`, `noIntent`. */
  datatype Intrinsic = Intent | Mf2 | NoIntent

  datatype Binding = Binding(moduleName: Bytes, exported: Bytes, intrinsic: Intrinsic)

  datatype BindingError =
    | EmptyModule
    | EmptyExport
    | Duplicate(moduleName: Bytes, exported: Bytes)
    | Conflict(moduleName: Bytes, exported: Bytes)

  function Rank(intrinsic: Intrinsic): nat {
    match intrinsic
    case Intent => 0
    case Mf2 => 1
    case NoIntent => 2
  }

  function KeyParts(a: Bytes, b: Bytes, c: Bytes, d: Bytes): seq<Ordering> {
    [CompareBytes(a, c), CompareBytes(b, d)]
  }

  /** The order of `(module, export)` pairs. */
  function CompareKey(a: Bytes, b: Bytes, c: Bytes, d: Bytes): Ordering {
    Chain(KeyParts(a, b, c, d))
  }

  /** The derived order of bindings. */
  predicate NoLater(a: Binding, b: Binding) {
    var key := CompareKey(a.moduleName, a.exported, b.moduleName, b.exported);
    key == Less || (key == Equal && Rank(a.intrinsic) <= Rank(b.intrinsic))
  }

  predicate SameKey(a: Binding, b: Binding) {
    a.moduleName == b.moduleName && a.exported == b.exported
  }

  lemma KeyLaws(a: Binding, b: Binding, c: Binding)
    ensures CompareKey(b.moduleName, b.exported, a.moduleName, a.exported)
         == Flip(CompareKey(a.moduleName, a.exported, b.moduleName, b.exported))
    ensures Fair(CompareKey(a.moduleName, a.exported, b.moduleName, b.exported),
                 CompareKey(b.moduleName, b.exported, c.moduleName, c.exported),
                 CompareKey(a.moduleName, a.exported, c.moduleName, c.exported))
    ensures CompareKey(a.moduleName, a.exported, b.moduleName, b.exported) == Equal <==> SameKey(a, b)
  {
    hide CompareBytes, Chain;
    BytesLaws(a.moduleName, b.moduleName, c.moduleName);
    BytesLaws(a.exported, b.exported, c.exported);
    BytesEqual(a.moduleName, b.moduleName);
    BytesEqual(a.exported, b.exported);
    ByParts(KeyParts(a.moduleName, a.exported, b.moduleName, b.exported),
            KeyParts(b.moduleName, b.exported, a.moduleName, a.exported),
            KeyParts(b.moduleName, b.exported, c.moduleName, c.exported),
            KeyParts(a.moduleName, a.exported, c.moduleName, c.exported));
    TwoParts(CompareBytes(a.moduleName, b.moduleName), CompareBytes(a.exported, b.exported));
  }

  lemma BindingsAreOrdered()
    ensures TotalPreorder(NoLater) && Antisymmetric(NoLater)
  {
    hide CompareKey;
    forall a, b, c
      ensures NoLater(a, b) || NoLater(b, a)
      ensures NoLater(a, b) && NoLater(b, c) ==> NoLater(a, c)
      ensures NoLater(a, b) && NoLater(b, a) ==> a == b
    {
      KeyLaws(a, b, c);
    }
  }

  // ---- checking a set

  predicate IsEmpty(binding: Binding) {
    binding.moduleName == [] || binding.exported == []
  }

  function EmptyError(binding: Binding): BindingError
    requires IsEmpty(binding)
  {
    if binding.moduleName == [] then EmptyModule else EmptyExport
  }

  /** What is wrong with two neighbours of the sorted set that name the same export. */
  function Clash(a: Binding, b: Binding): BindingError {
    if a.intrinsic == b.intrinsic then Duplicate(a.moduleName, a.exported) else Conflict(a.moduleName, a.exported)
  }

  /** The first neighbours that name the same export, with nothing before them naming one twice. */
  predicate FirstClash(entries: seq<Binding>, i: nat) {
    && i + 1 < |entries| && SameKey(entries[i], entries[i + 1])
    && forall k :: 0 <= k < i ==> !SameKey(entries[k], entries[k + 1])
  }

  ghost predicate NamedTwice(bindings: seq<Binding>) {
    SomePair(bindings, SameKey)
  }

  /** What checking a set gives. */
  ghost predicate Checks(bindings: seq<Binding>, r: Result<seq<Binding>, BindingError>) {
    if exists i: nat :: FirstEmpty(bindings, i) then
      exists i: nat :: FirstEmpty(bindings, i) && r == Err(EmptyError(bindings[i]))
    else exists entries :: Sorted(entries, NoLater) && multiset(entries) == multiset(bindings) && Settles(entries, r)
  }

  predicate FirstEmpty(bindings: seq<Binding>, i: nat) {
    i < |bindings| && IsEmpty(bindings[i]) && forall k :: 0 <= k < i ==> !IsEmpty(bindings[k])
  }

  ghost predicate Settles(entries: seq<Binding>, r: Result<seq<Binding>, BindingError>) {
    match r
    case Ok(kept) => kept == entries && forall k :: 0 <= k < |entries| - 1 ==> !SameKey(entries[k], entries[k + 1])
    case Err(error) => exists i: nat :: FirstClash(entries, i) && error == Clash(entries[i], entries[i + 1])
  }

  /** The first empty name in the order given, else the first clash in sorted order, else the sorted set. */
  method New(bindings: seq<Binding>) returns (r: Result<seq<Binding>, BindingError>)
    ensures Checks(bindings, r)
  {
    hide NoLater, Sorted;
    for i := 0 to |bindings|
      invariant forall k :: 0 <= k < i ==> !IsEmpty(bindings[k])
    {
      if IsEmpty(bindings[i]) {
        assert FirstEmpty(bindings, i);
        return Err(EmptyError(bindings[i]));
      }
    }
    BindingsAreOrdered();
    var entries := Sort(bindings, NoLater);
    var i := 0;
    while i + 1 < |entries|
      invariant forall k :: 0 <= k < i && k < |entries| - 1 ==> !SameKey(entries[k], entries[k + 1])
    {
      if SameKey(entries[i], entries[i + 1]) {
        assert FirstClash(entries, i);
        r := Err(Clash(entries[i], entries[i + 1]));
        assert Settles(entries, r);
        return;
      }
      i := i + 1;
    }
    r := Ok(entries);
    assert Settles(entries, r);
  }

  // ---- what a checked set is

  /** In order, some two bindings name the same export exactly when two neighbours do. */
  lemma NeighboursName(entries: seq<Binding>)
    requires Sorted(entries, NoLater)
    ensures NamedTwice(entries) <==> exists k :: 0 <= k < |entries| - 1 && SameKey(entries[k], entries[k + 1])
  {
    hide CompareKey;
    if NamedTwice(entries) {
      var i, j :| 0 <= i < j < |entries| && SameKey(entries[i], entries[j]);
      KeyLaws(entries[i], entries[i + 1], entries[j]);
      KeyLaws(entries[i + 1], entries[j], entries[i]);
      KeyLaws(entries[i], entries[j], entries[i]);
      KeyLaws(entries[j], entries[i], entries[i + 1]);
      assert NoLater(entries[i], entries[i + 1]) && (i + 1 == j || NoLater(entries[i + 1], entries[j]));
      assert SameKey(entries[i], entries[i + 1]);
    }
    if k :| 0 <= k < |entries| - 1 && SameKey(entries[k], entries[k + 1]) {
      assert SameKey(entries[k], entries[k + 1]);
    }
  }

  /** A set is accepted exactly when nothing in it is empty and no export is named twice. */
  lemma AcceptsExactly(bindings: seq<Binding>, r: Result<seq<Binding>, BindingError>)
    requires Checks(bindings, r)
    ensures r.Ok? <==> (forall binding :: binding in bindings ==> !IsEmpty(binding)) && !NamedTwice(bindings)
    ensures r.Ok? ==> Sorted(r.value, NoLater) && multiset(r.value) == multiset(bindings) && !NamedTwice(r.value)
  {
    hide NoLater, Sorted, SameKey;
    if i: nat :| FirstEmpty(bindings, i) {
      assert bindings[i] in bindings;
    } else {
      NoneEmpty(bindings);
      var entries :| Sorted(entries, NoLater) && multiset(entries) == multiset(bindings) && Settles(entries, r);
      SameKeySymmetric();
      SomePairAnyOrder(entries, bindings, SameKey);
      NeighboursName(entries);
    }
  }

  lemma SameKeySymmetric()
    ensures Symmetric(SameKey)
  {
  }

  lemma {:induction false} NoneEmpty(bindings: seq<Binding>)
    requires forall i: nat :: !FirstEmpty(bindings, i)
    ensures forall binding :: binding in bindings ==> !IsEmpty(binding)
  {
    var i := 0;
    while i < |bindings|
      invariant i <= |bindings| && forall k :: 0 <= k < i ==> !IsEmpty(bindings[k])
    {
      assert !FirstEmpty(bindings, i);
      i := i + 1;
    }
  }

  lemma SomeEmpty(bindings: seq<Binding>, empty: Binding)
    requires empty in bindings && IsEmpty(empty)
    ensures exists i: nat :: FirstEmpty(bindings, i)
  {
    if forall i: nat :: !FirstEmpty(bindings, i) {
      NoneEmpty(bindings);
    }
  }

  /** Some binding has no module, and another has one but no export. */
  ghost predicate MixedEmpties(bindings: seq<Binding>) {
    exists x, y :: x in bindings && y in bindings && x.moduleName == [] && y.moduleName != [] && y.exported == []
  }

  /** Unless both kinds of empty name are in it, what a set comes to does not depend on the order it is given in. */
  lemma OrderIndependent(a: seq<Binding>, b: seq<Binding>, p: Result<seq<Binding>, BindingError>,
                         q: Result<seq<Binding>, BindingError>)
    requires multiset(a) == multiset(b) && Checks(a, p) && Checks(b, q) && !MixedEmpties(a)
    ensures p == q
  {
    hide NoLater, Sorted, SameKey, Clash;
    SameElements(a, b);
    if i: nat :| FirstEmpty(a, i) {
      assert a[i] in b;
      SomeEmpty(b, a[i]);
      var j: nat :| FirstEmpty(b, j);
      assert b[j] in a;
      OneKind(a, b, a[i], p, q);
    } else {
      NoneEmpty(a);
      assert forall i :: 0 <= i < |b| ==> b[i] in b;
      BindingsAreOrdered();
      var c :| Sorted(c, NoLater) && multiset(c) == multiset(a) && Settles(c, p);
      var d :| Sorted(d, NoLater) && multiset(d) == multiset(b) && Settles(d, q);
      OneOrder(c, d);
      SettlesOne(c, p, q);
    }
  }

  lemma OneKind(a: seq<Binding>, b: seq<Binding>, empty: Binding, p: Result<seq<Binding>, BindingError>,
                q: Result<seq<Binding>, BindingError>)
    requires multiset(a) == multiset(b) && Checks(a, p) && Checks(b, q) && !MixedEmpties(a)
    requires (exists i: nat :: FirstEmpty(a, i)) && (exists i: nat :: FirstEmpty(b, i)) && empty in a && IsEmpty(empty)
    ensures p == q == Err(EmptyError(empty))
  {
    SameElements(a, b);
    var i: nat :| FirstEmpty(a, i) && p == Err(EmptyError(a[i]));
    var j: nat :| FirstEmpty(b, j) && q == Err(EmptyError(b[j]));
    assert a[i] in a && b[j] in a;
  }

  lemma MoveFirst(bindings: seq<Binding>, x: Binding) returns (moved: seq<Binding>)
    requires x in bindings
    ensures multiset(moved) == multiset(bindings) && moved != [] && moved[0] == x
  {
    var k :| 0 <= k < |bindings| && bindings[k] == x;
    Without(bindings, k);
    moved := [x] + (bindings[..k] + bindings[k + 1..]);
  }

  /** With both kinds, which one is reported depends on the order. */
  lemma MixedDiffers(bindings: seq<Binding>) returns (a: seq<Binding>, b: seq<Binding>)
    requires MixedEmpties(bindings)
    ensures multiset(a) == multiset(b) == multiset(bindings)
    ensures Checks(a, Err(EmptyModule)) && Checks(b, Err(EmptyExport))
  {
    var x, y :| x in bindings && y in bindings && x.moduleName == [] && y.moduleName != [] && y.exported == [];
    a := MoveFirst(bindings, x);
    b := MoveFirst(bindings, y);
    assert FirstEmpty(a, 0) && FirstEmpty(b, 0);
  }

  lemma OneOrder(a: seq<Binding>, b: seq<Binding>)
    requires Sorted(a, NoLater) && Sorted(b, NoLater) && multiset(a) == multiset(b)
    ensures a == b
  {
    hide NoLater;
    BindingsAreOrdered();
    SortedAgree(a, b, NoLater);
  }

  lemma SettlesOne(entries: seq<Binding>, p: Result<seq<Binding>, BindingError>, q: Result<seq<Binding>, BindingError>)
    requires Settles(entries, p) && Settles(entries, q)
    ensures p == q
  {
    hide SameKey, Clash;
    if p.Err? && q.Err? {
      var i: nat :| FirstClash(entries, i) && p.error == Clash(entries[i], entries[i + 1]);
      var j: nat :| FirstClash(entries, j) && q.error == Clash(entries[j], entries[j + 1]);
      assert i < j || j < i || i == j;
    }
  }

  // ---- what each error means

  predicate Names(binding: Binding, moduleName: Bytes, exported: Bytes) {
    binding.moduleName == moduleName && binding.exported == exported
  }

  /** `intent` before `mf2`, and both before `noIntent`. */
  predicate SoonerOrSame(a: Intrinsic, b: Intrinsic) {
    match a
    case Intent => true
    case Mf2 => b != Intent
    case NoIntent => b == NoIntent
  }

  /** By module, then by export, then by intrinsic. */
  ghost predicate InOrder(a: Binding, b: Binding) {
    || Smaller(a.moduleName, b.moduleName)
    || (a.moduleName == b.moduleName
        && (Smaller(a.exported, b.exported) || (a.exported == b.exported && SoonerOrSame(a.intrinsic, b.intrinsic))))
  }

  lemma OrderMeans(a: Binding, b: Binding)
    ensures NoLater(a, b) <==> InOrder(a, b)
  {
    hide CompareBytes, Smaller, Chain;
    BytesMean(a.moduleName, b.moduleName);
    BytesMean(a.exported, b.exported);
    TwoParts(CompareBytes(a.moduleName, b.moduleName), CompareBytes(a.exported, b.exported));
    SmallerOnce(a.moduleName, b.moduleName);
    SmallerOnce(a.exported, b.exported);
  }

  lemma SmallerOnce(a: Bytes, b: Bytes)
    ensures Smaller(a, b) ==> !Smaller(b, a) && a != b
  {
    BytesMean(a, b);
  }

  ghost predicate ExportTwice(bindings: seq<Binding>, moduleName: Bytes, exported: Bytes) {
    exists i, j :: 0 <= i < j < |bindings| && Names(bindings[i], moduleName, exported) && Names(bindings[j], moduleName, exported)
  }

  ghost predicate GivenTwice(bindings: seq<Binding>, binding: Binding) {
    exists i, j :: 0 <= i < j < |bindings| && bindings[i] == binding && bindings[j] == binding
  }

  /** `intrinsic` is the soonest the export is bound to. */
  predicate Soonest(bindings: seq<Binding>, moduleName: Bytes, exported: Bytes, intrinsic: Intrinsic) {
    && Binding(moduleName, exported, intrinsic) in bindings
    && forall binding :: binding in bindings && Names(binding, moduleName, exported) ==> SoonerOrSame(intrinsic, binding.intrinsic)
  }

  /** No name is empty, this export is named twice, and none before it is. */
  ghost predicate LeastTwice(bindings: seq<Binding>, moduleName: Bytes, exported: Bytes) {
    && (forall binding :: binding in bindings ==> binding.moduleName != [] && binding.exported != [])
    && ExportTwice(bindings, moduleName, exported)
    && forall m, e :: ExportTwice(bindings, m, e) ==>
                        !Smaller(m, moduleName) && (m == moduleName ==> !Smaller(e, exported))
  }

  /** An empty name at `i` and none before it. */
  predicate FirstEmptyAt(bindings: seq<Binding>, i: nat) {
    && i < |bindings| && (bindings[i].moduleName == [] || bindings[i].exported == [])
    && forall k :: 0 <= k < i ==> bindings[k].moduleName != [] && bindings[k].exported != []
  }

  ghost predicate Means(bindings: seq<Binding>, error: BindingError) {
    match error
    case EmptyModule => exists i: nat :: FirstEmptyAt(bindings, i) && bindings[i].moduleName == []
    case EmptyExport => exists i: nat :: FirstEmptyAt(bindings, i) && bindings[i].moduleName != []
    case Duplicate(m, e) =>
      && LeastTwice(bindings, m, e)
      && exists intrinsic :: Soonest(bindings, m, e, intrinsic) && GivenTwice(bindings, Binding(m, e, intrinsic))
    case Conflict(m, e) =>
      && LeastTwice(bindings, m, e)
      && exists intrinsic :: Soonest(bindings, m, e, intrinsic) && !GivenTwice(bindings, Binding(m, e, intrinsic))
  }

  lemma ExportTwiceAnyOrder(a: seq<Binding>, b: seq<Binding>, m: Bytes, e: Bytes)
    requires multiset(a) == multiset(b)
    ensures ExportTwice(a, m, e) <==> ExportTwice(b, m, e)
  {
    var both := (x: Binding, y: Binding) => Names(x, m, e) && Names(y, m, e);
    SomePairAnyOrder(a, b, both);
    assert SomePair(a, both) <==> ExportTwice(a, m, e) by { PairIs(a, m, e, both); }
    assert SomePair(b, both) <==> ExportTwice(b, m, e) by { PairIs(b, m, e, both); }
  }

  lemma PairIs(s: seq<Binding>, m: Bytes, e: Bytes, both: (Binding, Binding) -> bool)
    requires forall x, y :: both(x, y) == (Names(x, m, e) && Names(y, m, e))
    ensures SomePair(s, both) <==> ExportTwice(s, m, e)
  {
    if i, j :| 0 <= i < j < |s| && Names(s[i], m, e) && Names(s[j], m, e) {
      assert both(s[i], s[j]);
    }
    if i, j :| 0 <= i < j < |s| && both(s[i], s[j]) {
      assert Names(s[i], m, e);
    }
  }

  lemma GivenTwiceAnyOrder(a: seq<Binding>, b: seq<Binding>, x: Binding)
    requires multiset(a) == multiset(b)
    ensures GivenTwice(a, x) <==> GivenTwice(b, x)
  {
    var both := (y: Binding, z: Binding) => y == x && z == x;
    SomePairAnyOrder(a, b, both);
    assert SomePair(a, both) <==> GivenTwice(a, x) by { SameIs(a, x, both); }
    assert SomePair(b, both) <==> GivenTwice(b, x) by { SameIs(b, x, both); }
  }

  lemma SameIs(s: seq<Binding>, x: Binding, both: (Binding, Binding) -> bool)
    requires forall y, z :: both(y, z) == (y == x && z == x)
    ensures SomePair(s, both) <==> GivenTwice(s, x)
  {
    if i, j :| 0 <= i < j < |s| && s[i] == x && s[j] == x {
      assert both(s[i], s[j]);
    }
    if i, j :| 0 <= i < j < |s| && both(s[i], s[j]) {
      assert s[i] == x;
    }
  }

  /** Between two bindings of one export, in order, all are of that export. */
  lemma NoneBetween(entries: seq<Binding>, i: nat, j: nat, k: nat)
    requires Sorted(entries, NoLater) && i <= k <= j < |entries| && SameKey(entries[i], entries[j])
    ensures SameKey(entries[i], entries[k])
  {
    hide Smaller, NoLater;
    if i < k < j {
      assert NoLater(entries[i], entries[k]) && NoLater(entries[k], entries[j]);
      OrderMeans(entries[i], entries[k]);
      OrderMeans(entries[k], entries[j]);
      SmallerOnce(entries[i].moduleName, entries[k].moduleName);
      SmallerOnce(entries[k].moduleName, entries[j].moduleName);
      SmallerOnce(entries[i].exported, entries[k].exported);
      SmallerOnce(entries[k].exported, entries[j].exported);
    }
  }

  lemma ClashIsLeast(entries: seq<Binding>, i: nat)
    requires Sorted(entries, NoLater) && FirstClash(entries, i)
    ensures var Binding(m, e, intrinsic) := entries[i];
            && ExportTwice(entries, m, e) && Soonest(entries, m, e, intrinsic)
            && (forall m', e' :: ExportTwice(entries, m', e') ==> !Smaller(m', m) && (m' == m ==> !Smaller(e', e)))
            && (GivenTwice(entries, entries[i]) <==> entries[i] == entries[i + 1])
  {
    hide Smaller, NoLater;
    var Binding(m, e, intrinsic) := entries[i];
    assert Names(entries[i], m, e) && Names(entries[i + 1], m, e);
    forall j | 0 <= j < |entries| && Names(entries[j], m, e)
      ensures j >= i && SoonerOrSame(intrinsic, entries[j].intrinsic)
    {
      if j < i {
        NoneBetween(entries, j, i, j + 1);
      } else if j > i {
        assert NoLater(entries[i], entries[j]);
        OrderMeans(entries[i], entries[j]);
        SmallerOnce(m, m);
        SmallerOnce(e, e);
      }
    }
    forall m', e' | ExportTwice(entries, m', e')
      ensures !Smaller(m', m) && (m' == m ==> !Smaller(e', e))
    {
      var j, l :| 0 <= j < l < |entries| && Names(entries[j], m', e') && Names(entries[l], m', e');
      NoneBetween(entries, j, l, j + 1);
      assert j >= i;
      if j > i {
        assert NoLater(entries[i], entries[j]);
        OrderMeans(entries[i], entries[j]);
      }
      SmallerOnce(m', m);
      SmallerOnce(e', e);
    }
    if GivenTwice(entries, entries[i]) {
      GivenNext(entries, i);
    }
  }

  /** In order, whatever is given twice is given next. */
  lemma GivenNext(entries: seq<Binding>, i: nat)
    requires Sorted(entries, NoLater) && FirstClash(entries, i) && GivenTwice(entries, entries[i])
    ensures entries[i] == entries[i + 1]
  {
    hide NoLater;
    BindingsAreOrdered();
    var j, l :| 0 <= j < l < |entries| && entries[j] == entries[i] && entries[l] == entries[i];
    if j < i {
      NoneBetween(entries, j, i, j + 1);
    }
    if l > i + 1 {
      assert NoLater(entries[i], entries[i + 1]) && NoLater(entries[i + 1], entries[l]);
    }
  }

  /** What is wrong with a refused set: the first empty name as given, else the least export named twice, twice as its
      soonest intrinsic or as that and another. */
  lemma ErrorMeans(bindings: seq<Binding>, error: BindingError)
    requires Checks(bindings, Err(error))
    ensures Means(bindings, error)
  {
    hide Smaller, NoLater, Sorted, Soonest, GivenTwice, ExportTwice;
    if i: nat :| FirstEmpty(bindings, i) {
      var j: nat :| FirstEmpty(bindings, j) && error == EmptyError(bindings[j]);
      assert FirstEmptyAt(bindings, j);
    } else {
      NoneEmpty(bindings);
      var entries :| Sorted(entries, NoLater) && multiset(entries) == multiset(bindings) && Settles(entries, Err(error));
      var i: nat :| FirstClash(entries, i) && error == Clash(entries[i], entries[i + 1]);
      ClashIsLeast(entries, i);
      SameElements(entries, bindings);
      var Binding(m, e, intrinsic) := entries[i];
      SoonestAnyOrder(entries, bindings, m, e, intrinsic);
      GivenTwiceAnyOrder(entries, bindings, entries[i]);
      forall m', e'
        ensures ExportTwice(entries, m', e') <==> ExportTwice(bindings, m', e')
      {
        ExportTwiceAnyOrder(entries, bindings, m', e');
      }
      assert LeastTwice(bindings, m, e);
    }
  }

  lemma SoonestAnyOrder(a: seq<Binding>, b: seq<Binding>, m: Bytes, e: Bytes, intrinsic: Intrinsic)
    requires multiset(a) == multiset(b) && Soonest(a, m, e, intrinsic)
    ensures Soonest(b, m, e, intrinsic)
  {
    SameElements(a, b);
  }

  // ---- looking one up

  ghost predicate Known(entries: seq<Binding>) {
    Sorted(entries, NoLater) && !NamedTwice(entries)
  }

  /** The intrinsic an export of a module is registered as. */
  method Find(entries: seq<Binding>, moduleName: Bytes, exported: Bytes) returns (r: Option<Intrinsic>)
    requires Known(entries)
    ensures r.Some? ==> Binding(moduleName, exported, r.value) in entries
    ensures forall intrinsic :: Binding(moduleName, exported, intrinsic) in entries ==> r == Some(intrinsic)
  {
    hide CompareKey, Sorted, NamedTwice;
    Searchable(entries, moduleName, exported);
    var at := BinarySearch(entries, (entry: Binding) => CompareKey(entry.moduleName, entry.exported, moduleName, exported) == Less,
                           (entry: Binding) => CompareKey(entry.moduleName, entry.exported, moduleName, exported) == Greater);
    var wanted := Binding(moduleName, exported, Intent);
    if at.Some? {
      KeyLaws(entries[at.value], wanted, wanted);
    }
    r := if at.Some? then Some(entries[at.value].intrinsic) else None;
    forall intrinsic | Binding(moduleName, exported, intrinsic) in entries
      ensures r == Some(intrinsic)
    {
      var k :| 0 <= k < |entries| && entries[k] == Binding(moduleName, exported, intrinsic);
      KeyLaws(entries[k], wanted, wanted);
      if at.Some? {
        OnlyOne(entries, k, at.value);
      }
    }
  }

  lemma OnlyOne(entries: seq<Binding>, i: nat, j: nat)
    requires !NamedTwice(entries) && i < |entries| && j < |entries| && SameKey(entries[i], entries[j])
    ensures i == j
  {
    if i < j || j < i {
      assert SameKey(entries[i], entries[j]) && SameKey(entries[j], entries[i]);
    }
  }

  lemma Searchable(entries: seq<Binding>, moduleName: Bytes, exported: Bytes)
    requires Sorted(entries, NoLater)
    ensures forall i, j :: 0 <= i < j < |entries|
                           && CompareKey(entries[j].moduleName, entries[j].exported, moduleName, exported) == Less ==>
                             CompareKey(entries[i].moduleName, entries[i].exported, moduleName, exported) == Less
    ensures forall i, j :: 0 <= i < j < |entries|
                           && CompareKey(entries[i].moduleName, entries[i].exported, moduleName, exported) == Greater ==>
                             CompareKey(entries[j].moduleName, entries[j].exported, moduleName, exported) == Greater
  {
    hide CompareKey;
    var wanted := Binding(moduleName, exported, Intent);
    forall i, j | 0 <= i < j < |entries|
      ensures CompareKey(entries[j].moduleName, entries[j].exported, moduleName, exported) == Less ==>
                CompareKey(entries[i].moduleName, entries[i].exported, moduleName, exported) == Less
      ensures CompareKey(entries[i].moduleName, entries[i].exported, moduleName, exported) == Greater ==>
                CompareKey(entries[j].moduleName, entries[j].exported, moduleName, exported) == Greater
    {
      assert NoLater(entries[i], entries[j]);
      KeyLaws(entries[i], entries[j], wanted);
      KeyLaws(wanted, entries[i], entries[j]);
      KeyLaws(entries[j], wanted, entries[i]);
      KeyLaws(entries[i], wanted, entries[j]);
    }
  }
}
