/** Which declaration an identifier handed to `intent()` names, as the recognizer of
    `crates/intlify_authoring_js/src/explicit.rs` decides it once the whole unit has been read. */
module Aliases {
  import opened Wrappers
  import opened SpanTree

  type Symbol = nat

  /** The two right-hand sides of a `const` that resolution looks at. */
  datatype Initializer =
    | Mf2(tag: Span)
    | Alias(target: Symbol)

  /** What an identifier turned out to name. */
  datatype Named =
    | Declaration(index: nat)
    | Failed  // an `mf2` tag that declared nothing
    | Intrinsic
    | Aliased
    | Module
    | Dynamic

  type Constants = map<Symbol, Initializer>

  /** What the walk has learned of the unit's bindings. */
  datatype Scope = Scope(constants: Constants, tags: map<Span, nat>, intrinsics: set<Symbol>, imports: set<Symbol>)

  // ---- following aliases, without a bound

  predicate IsAlias(constants: Constants, s: Symbol) {
    s in constants && constants[s].Alias?
  }

  /** The symbol `n` alias links on from `s`, if there are that many. */
  function Hop(constants: Constants, s: Symbol, n: nat): Option<Symbol>
    decreases n
  {
    if n == 0 then Some(s)
    else if IsAlias(constants, s) then Hop(constants, constants[s].target, n - 1)
    else None
  }

  /** The chain from `s` has exactly `n` links, and ends at `t`. */
  predicate Ends(constants: Constants, s: Symbol, t: Symbol, n: nat) {
    Hop(constants, s, n) == Some(t) && !IsAlias(constants, t)
  }

  ghost predicate Endless(constants: Constants, s: Symbol) {
    forall n: nat :: Hop(constants, s, n).Some?
  }

  lemma {:induction false} HopAdd(constants: Constants, s: Symbol, n: nat, m: nat)
    requires Hop(constants, s, n).Some?
    ensures Hop(constants, s, n + m) == Hop(constants, Hop(constants, s, n).value, m)
    decreases n
  {
    if n > 0 {
      HopAdd(constants, constants[s].target, n - 1, m);
    }
  }

  lemma {:induction false} HopBefore(constants: Constants, s: Symbol, n: nat, m: nat)
    requires m <= n && Hop(constants, s, n).Some?
    ensures Hop(constants, s, m).Some?
    decreases n
  {
    if m > 0 {
      HopBefore(constants, constants[s].target, n - 1, m - 1);
    }
  }

  lemma HopNext(constants: Constants, s: Symbol, n: nat)
    requires Hop(constants, s, n).Some?
    ensures var t := Hop(constants, s, n).value;
            Hop(constants, s, n + 1) == if IsAlias(constants, t) then Some(constants[t].target) else None
  {
    HopAdd(constants, s, n, 1);
    var t := Hop(constants, s, n).value;
    assert IsAlias(constants, t) ==> Hop(constants, constants[t].target, 0) == Some(constants[t].target);
  }

  /** A chain that ends has no further link. */
  lemma EndsStop(constants: Constants, s: Symbol, t: Symbol, n: nat, m: nat)
    requires Ends(constants, s, t, n) && n < m
    ensures Hop(constants, s, m) == None
  {
    HopAdd(constants, s, n, m - n);
  }

  lemma EndsOnce(constants: Constants, s: Symbol, t: Symbol, n: nat, u: Symbol, m: nat)
    requires Ends(constants, s, t, n) && Ends(constants, s, u, m)
    ensures n == m && t == u
  {
    if n < m {
      EndsStop(constants, s, t, n, m);
    } else if m < n {
      EndsStop(constants, s, u, m, n);
    }
  }

  lemma {:induction false} LastHop(constants: Constants, s: Symbol, n: nat) returns (t: Symbol, m: nat)
    requires Hop(constants, s, n) == None
    ensures m < n && Ends(constants, s, t, m)
    decreases n
  {
    if IsAlias(constants, s) {
      var k;
      t, k := LastHop(constants, constants[s].target, n - 1);
      m := k + 1;
    } else {
      t, m := s, 0;
    }
  }

  lemma EndsOrEndless(constants: Constants, s: Symbol)
    ensures Endless(constants, s) <==> !exists t, n: nat :: Ends(constants, s, t, n)
  {
    if n: nat :| Hop(constants, s, n) == None {
      var t, m := LastHop(constants, s, n);
    }
    if t, n: nat :| Ends(constants, s, t, n) {
      EndsStop(constants, s, t, n, n + 1);
    }
  }

  // ---- the bound: a chain that ends has no more links than there are constants

  lemma NoRepeat(constants: Constants, s: Symbol, t: Symbol, n: nat, i: nat, j: nat)
    requires Ends(constants, s, t, n) && i < j <= n
    ensures Hop(constants, s, i) != Hop(constants, s, j)
  {
    HopBefore(constants, s, n, i);
    HopBefore(constants, s, n, j);
    HopAdd(constants, s, i, n - i);
    HopAdd(constants, s, j, n - j);
    var u := Hop(constants, s, i).value;
    if Hop(constants, s, j) == Some(u) {
      EndsOnce(constants, u, t, n - i, t, n - j);
    }
  }

  /** The first `n` symbols of the chain. */
  ghost function Passed(constants: Constants, s: Symbol, n: nat): (symbols: set<Symbol>)
    requires Hop(constants, s, n).Some?
    ensures symbols <= constants.Keys
  {
    if n == 0 then {}
    else
      HopBefore(constants, s, n, n - 1);
      HopNext(constants, s, n - 1);
      Passed(constants, s, n - 1) + {Hop(constants, s, n - 1).value}
  }

  lemma {:induction false} PassedAt(constants: Constants, s: Symbol, n: nat, u: Symbol)
    requires Hop(constants, s, n).Some?
    ensures u in Passed(constants, s, n) <==> exists i: nat :: i < n && Hop(constants, s, i) == Some(u)
  {
    if n > 0 {
      HopBefore(constants, s, n, n - 1);
      PassedAt(constants, s, n - 1, u);
      assert Hop(constants, s, n - 1).Some?;
    }
  }

  /** No symbol is passed twice, so there are as many as there are links. */
  lemma {:induction false} PassedCount(constants: Constants, s: Symbol, n: nat)
    requires Hop(constants, s, n).Some?
    requires forall i: nat, j: nat :: i < j < n ==> Hop(constants, s, i) != Hop(constants, s, j)
    ensures |Passed(constants, s, n)| == n
  {
    if n > 0 {
      HopBefore(constants, s, n, n - 1);
      PassedCount(constants, s, n - 1);
      PassedAt(constants, s, n - 1, Hop(constants, s, n - 1).value);
    }
  }

  lemma {:induction false} SubsetSize<T>(a: set<T>, b: set<T>)
    requires a <= b
    ensures |a| <= |b|
  {
    if a != {} {
      var x :| x in a;
      SubsetSize(a - {x}, b - {x});
    }
  }

  lemma EndsWithin(constants: Constants, s: Symbol, t: Symbol, n: nat)
    requires Ends(constants, s, t, n)
    ensures n <= |constants|
  {
    forall i: nat, j: nat | i < j < n
      ensures Hop(constants, s, i) != Hop(constants, s, j)
    {
      NoRepeat(constants, s, t, n, i, j);
    }
    PassedCount(constants, s, n);
    SubsetSize(Passed(constants, s, n), constants.Keys);
  }

  /** One link more than there are constants means the chain never ends. */
  lemma TooLong(constants: Constants, s: Symbol)
    requires Hop(constants, s, |constants| + 1).Some?
    ensures Endless(constants, s)
  {
    EndsOrEndless(constants, s);
    if t, n: nat :| Ends(constants, s, t, n) {
      EndsWithin(constants, s, t, n);
      EndsStop(constants, s, t, n, |constants| + 1);
    }
  }

  /** The chain comes back to a symbol it has passed. */
  ghost predicate Cycles(constants: Constants, s: Symbol) {
    exists i: nat, j: nat :: i < j && Meets(constants, s, i, j)
  }

  predicate Meets(constants: Constants, s: Symbol, i: nat, j: nat) {
    Hop(constants, s, i).Some? && Hop(constants, s, i) == Hop(constants, s, j)
  }

  lemma EndlessCycles(constants: Constants, s: Symbol)
    requires Endless(constants, s)
    ensures Cycles(constants, s)
  {
    var n := |constants| + 1;
    assert Hop(constants, s, n).Some?;
    if forall i: nat, j: nat :: i < j < n ==> Hop(constants, s, i) != Hop(constants, s, j) {
      PassedCount(constants, s, n);
      SubsetSize(Passed(constants, s, n), constants.Keys);
      assert false;
    }
    var i: nat, j: nat :| i < j < n && Hop(constants, s, i) == Hop(constants, s, j);
    assert Hop(constants, s, i).Some?;
    assert Meets(constants, s, i, j);
  }

  /** A chain never ends exactly when it comes back to a symbol it has passed. */
  lemma EndlessIsCycle(constants: Constants, s: Symbol)
    ensures Endless(constants, s) <==> Cycles(constants, s)
  {
    EndsOrEndless(constants, s);
    if Endless(constants, s) {
      EndlessCycles(constants, s);
    } else {
      var t, n: nat :| Ends(constants, s, t, n);
      forall i: nat, j: nat | i < j
        ensures !Meets(constants, s, i, j)
      {
        if j <= n {
          NoRepeat(constants, s, t, n, i, j);
        } else {
          EndsStop(constants, s, t, n, j);
        }
      }
    }
  }

  // ---- what a name is

  /** What a symbol that is not an alias names, reached through an alias or not. */
  function NameAt(scope: Scope, t: Symbol, aliased: bool): Named {
    if t in scope.constants && scope.constants[t].Mf2? then
      if aliased then Aliased
      else if scope.constants[t].tag in scope.tags then Declaration(scope.tags[scope.constants[t].tag])
      else Failed
    else Outside(scope, t)
  }

  /** What a symbol outside the constants names. */
  function Outside(scope: Scope, t: Symbol): Named {
    if t in scope.intrinsics then Intrinsic else if t in scope.imports then Module else Dynamic
  }

  /** `r` is what `s` names: what its chain ends at, or, on a cycle, what the symbol the bound stops at is. */
  ghost predicate Names(scope: Scope, s: Symbol, r: Named) {
    && (forall t, n: nat :: Ends(scope.constants, s, t, n) ==> r == NameAt(scope, t, n > 0))
    && (forall t :: Hop(scope.constants, s, |scope.constants| + 1) == Some(t) ==> r == Outside(scope, t))
  }

  lemma NameExists(scope: Scope, s: Symbol) returns (r: Named)
    ensures Names(scope, s, r)
  {
    hide NameAt, Outside;
    EndsOrEndless(scope.constants, s);
    if t, n: nat :| Ends(scope.constants, s, t, n) {
      r := NameAt(scope, t, n > 0);
      EndsWithin(scope.constants, s, t, n);
      EndsStop(scope.constants, s, t, n, |scope.constants| + 1);
      forall u, m: nat | Ends(scope.constants, s, u, m)
        ensures r == NameAt(scope, u, m > 0)
      {
        EndsOnce(scope.constants, s, t, n, u, m);
      }
    } else {
      r := Outside(scope, Hop(scope.constants, s, |scope.constants| + 1).value);
    }
  }

  lemma NamesOne(scope: Scope, s: Symbol, r: Named, q: Named)
    requires Names(scope, s, r) && Names(scope, s, q)
    ensures r == q
  {
    hide NameAt, Outside;
    EndsOrEndless(scope.constants, s);
    if t, n: nat :| Ends(scope.constants, s, t, n) {
      assert r == NameAt(scope, t, n > 0);
    } else {
      assert Hop(scope.constants, s, |scope.constants| + 1).Some?;
    }
  }

  /** A `const` binding is neither an import nor an intrinsic, which is always bound by an import. */
  predicate Lexical(scope: Scope) {
    forall s :: s in scope.constants ==> s !in scope.intrinsics && s !in scope.imports
  }

  /** The symbol the chain from `s` ends at, `n` links on, lies outside the constants. */
  predicate Leaves(scope: Scope, s: Symbol, t: Symbol, n: nat) {
    Ends(scope.constants, s, t, n) && t !in scope.constants
  }

  lemma HopInside(constants: Constants, s: Symbol, n: nat)
    requires Hop(constants, s, n + 1).Some?
    ensures Hop(constants, s, n).Some? && IsAlias(constants, Hop(constants, s, n).value)
  {
    HopBefore(constants, s, n + 1, n);
    HopNext(constants, s, n);
  }

  lemma NameOfEnd(scope: Scope, s: Symbol, r: Named, t: Symbol, n: nat)
    requires Names(scope, s, r) && Ends(scope.constants, s, t, n)
    ensures r == NameAt(scope, t, n > 0)
    ensures forall u, m: nat :: Ends(scope.constants, s, u, m) ==> u == t && m == n
    ensures !Endless(scope.constants, s)
  {
    hide NameAt, Outside;
    EndsStop(scope.constants, s, t, n, n + 1);
    forall u, m: nat | Ends(scope.constants, s, u, m)
      ensures u == t && m == n
    {
      EndsOnce(scope.constants, s, t, n, u, m);
    }
  }

  /** A chain that never ends reaches no declaration. */
  lemma EndlessOutside(scope: Scope, s: Symbol, r: Named)
    requires Names(scope, s, r)
    ensures Endless(scope.constants, s) ==> !r.Declaration? && r != Failed && r != Aliased
  {
    if Endless(scope.constants, s) {
      var n := |scope.constants| + 1;
      assert Hop(scope.constants, s, n).Some?;
    }
  }

  /** A cycle is never anything but dynamic. */
  lemma NameOfCycle(scope: Scope, s: Symbol, r: Named)
    requires Names(scope, s, r) && Lexical(scope) && Endless(scope.constants, s)
    ensures r == Dynamic
    ensures forall t, n: nat :: !Ends(scope.constants, s, t, n)
  {
    EndsOrEndless(scope.constants, s);
    var n := |scope.constants| + 1;
    assert Hop(scope.constants, s, n + 1).Some?;
    HopInside(scope.constants, s, n);
  }

  /** Alias resolution is exact. */
  lemma NamedExactly(scope: Scope, s: Symbol, r: Named)
    requires Names(scope, s, r) && Lexical(scope)
    ensures r == Aliased <==> exists t, n: nat :: Ends(scope.constants, s, t, n) && n > 0 && t in scope.constants
    ensures r.Declaration? || r == Failed <==> s in scope.constants && scope.constants[s].Mf2?
    ensures forall index :: r == Declaration(index)
                       <==> && s in scope.constants && scope.constants[s].Mf2? && scope.constants[s].tag in scope.tags
                            && scope.tags[scope.constants[s].tag] == index
    ensures r == Intrinsic <==> exists t, n: nat :: Leaves(scope, s, t, n) && t in scope.intrinsics
    ensures r == Module
       <==> exists t, n: nat :: Leaves(scope, s, t, n) && t in scope.imports && t !in scope.intrinsics
    ensures r == Dynamic
       <==> || Endless(scope.constants, s)
            || exists t, n: nat :: Leaves(scope, s, t, n) && t !in scope.imports && t !in scope.intrinsics
  {
    EndsOrEndless(scope.constants, s);
    assert s in scope.constants && scope.constants[s].Mf2? ==> Ends(scope.constants, s, s, 0);
    if t, n: nat :| Ends(scope.constants, s, t, n) {
      NameOfEnd(scope, s, r, t, n);
      assert n == 0 ==> t == s;
      assert t !in scope.constants ==> Leaves(scope, s, t, n);
    } else {
      NameOfCycle(scope, s, r);
    }
  }

  // ---- chains as they are written

  /** Each symbol but the last is a `const` alias of the next. */
  predicate Links(constants: Constants, chain: seq<Symbol>) {
    && chain != []
    && forall i :: 0 <= i < |chain| - 1 ==> chain[i] in constants && constants[chain[i]] == Alias(chain[i + 1])
  }

  /** One or more aliases lead from `s` to an `mf2` initializer. */
  ghost predicate LeadsToTag(scope: Scope, s: Symbol) {
    exists chain :: TagChain(scope.constants, s, chain)
  }

  predicate TagChain(constants: Constants, s: Symbol, chain: seq<Symbol>) {
    && Links(constants, chain) && chain[0] == s && |chain| > 1
    && chain[|chain| - 1] in constants && constants[chain[|chain| - 1]].Mf2?
  }

  /** Aliases, or none, lead from `s` to `t`, which is no constant. */
  ghost predicate LeadsOutTo(scope: Scope, s: Symbol, t: Symbol) {
    exists chain :: OutChain(scope.constants, s, t, chain)
  }

  predicate OutChain(constants: Constants, s: Symbol, t: Symbol, chain: seq<Symbol>) {
    Links(constants, chain) && chain[0] == s && chain[|chain| - 1] == t && t !in constants
  }

  /** Aliases lead from `s` round to a symbol already passed. */
  ghost predicate LeadsRound(scope: Scope, s: Symbol) {
    exists chain, i :: RoundChain(scope.constants, s, chain, i)
  }

  predicate RoundChain(constants: Constants, s: Symbol, chain: seq<Symbol>, i: int) {
    Links(constants, chain) && chain[0] == s && 0 <= i < |chain| - 1 && chain[i] == chain[|chain| - 1]
  }

  lemma {:induction false} LinksHop(constants: Constants, chain: seq<Symbol>, n: nat)
    requires Links(constants, chain) && n < |chain|
    ensures Hop(constants, chain[0], n) == Some(chain[n])
  {
    if n > 0 {
      LinksHop(constants, chain, n - 1);
      HopNext(constants, chain[0], n - 1);
    }
  }

  lemma {:induction false} HopLinks(constants: Constants, s: Symbol, n: nat) returns (chain: seq<Symbol>)
    requires Hop(constants, s, n).Some?
    ensures Links(constants, chain) && |chain| == n + 1 && chain[0] == s
    ensures forall k :: 0 <= k <= n ==> Hop(constants, s, k) == Some(chain[k])
  {
    if n == 0 {
      chain := [s];
    } else {
      HopBefore(constants, s, n, n - 1);
      chain := HopLinks(constants, s, n - 1);
      HopNext(constants, s, n - 1);
      chain := chain + [Hop(constants, s, n).value];
    }
  }

  /** The three ways a chain can go, told by its links. */
  lemma ChainsMean(scope: Scope, s: Symbol)
    ensures LeadsToTag(scope, s)
       <==> exists t, n: nat :: Ends(scope.constants, s, t, n) && n > 0 && t in scope.constants
    ensures forall t :: LeadsOutTo(scope, s, t) <==> exists n: nat :: Leaves(scope, s, t, n)
    ensures LeadsRound(scope, s) <==> Endless(scope.constants, s)
  {
    TagChains(scope, s);
    forall t
      ensures LeadsOutTo(scope, s, t) <==> exists n: nat :: Leaves(scope, s, t, n)
    {
      OutChains(scope, s, t);
    }
    RoundChains(scope, s);
  }

  lemma TagChains(scope: Scope, s: Symbol)
    ensures LeadsToTag(scope, s)
       <==> exists t, n: nat :: Ends(scope.constants, s, t, n) && n > 0 && t in scope.constants
  {
    if chain :| TagChain(scope.constants, s, chain) {
      LinksHop(scope.constants, chain, |chain| - 1);
      assert Ends(scope.constants, s, chain[|chain| - 1], |chain| - 1);
    }
    if t, n: nat :| Ends(scope.constants, s, t, n) && n > 0 && t in scope.constants {
      var chain := HopLinks(scope.constants, s, n);
      assert TagChain(scope.constants, s, chain);
    }
  }

  lemma OutChains(scope: Scope, s: Symbol, t: Symbol)
    ensures LeadsOutTo(scope, s, t) <==> exists n: nat :: Leaves(scope, s, t, n)
  {
    if chain :| OutChain(scope.constants, s, t, chain) {
      LinksHop(scope.constants, chain, |chain| - 1);
      assert Leaves(scope, s, t, |chain| - 1);
    }
    if n: nat :| Leaves(scope, s, t, n) {
      var chain := HopLinks(scope.constants, s, n);
      assert OutChain(scope.constants, s, t, chain);
    }
  }

  lemma RoundChains(scope: Scope, s: Symbol)
    ensures LeadsRound(scope, s) <==> Endless(scope.constants, s)
  {
    EndlessIsCycle(scope.constants, s);
    if chain, k :| RoundChain(scope.constants, s, chain, k) {
      LinksHop(scope.constants, chain, k);
      LinksHop(scope.constants, chain, |chain| - 1);
      assert Meets(scope.constants, s, k, |chain| - 1);
    }
    if i: nat, j: nat :| i < j && Meets(scope.constants, s, i, j) {
      var chain := HopLinks(scope.constants, s, j);
      assert RoundChain(scope.constants, s, chain, i);
    }
  }
}
