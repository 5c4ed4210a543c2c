/** The bounded collector of `crates/intlify_authoring/src/declaration.rs`, and the comparison of parameters that
    reports into it. */
module Collecting {
  import opened Orders
  import opened Pieces

  function Kept<D>(received: seq<D>, budget: nat): seq<D> {
    if |received| <= budget then received else received[..budget]
  }

  /** It keeps no more than its budget, and remembers whether more arrived. */
  class Sink<D> {
    var reported: seq<D>
    const budget: nat
    var exhausted: bool
    /** Everything that arrived, kept or not. */
    ghost var received: seq<D>

    constructor (budget: nat)
      ensures Valid() && received == [] && this.budget == budget
    {
      this.budget := budget;
      reported, exhausted, received := [], false, [];
    }

    ghost predicate Valid()
      reads this
    {
      reported == Kept(received, budget) && exhausted == (|received| > budget)
    }

    method Push(record: D)
      requires Valid()
      modifies this
      ensures Valid() && received == old(received) + [record]
      ensures reported == if |old(reported)| < budget then old(reported) + [record] else old(reported)
      ensures exhausted <==> old(exhausted) || |old(reported)| >= budget
    {
      received := received + [record];
      if |reported| >= budget {
        exhausted := true;
        return;
      }
      reported := reported + [record];
    }
  }

  // ---- comparing parameters

  datatype Binding<X> = Binding(name: Bytes, expression: X)

  datatype Cause = Duplicate | Extra | Missing

  datatype Mismatch<X> = Mismatch(cause: Cause, name: Bytes, related: seq<X>)

  function Names<X>(supplied: seq<Binding<X>>): (names: seq<Bytes>)
    ensures |names| == |supplied| && forall i :: 0 <= i < |names| ==> names[i] == supplied[i].name
  {
    seq(|supplied|, i requires 0 <= i < |supplied| => supplied[i].name)
  }

  /** What is wrong with the binding at `i`, whose name may have been supplied before. */
  function AboutSupplied<X>(required: seq<Bytes>, supplied: seq<Binding<X>>, i: nat): seq<Mismatch<X>>
    requires i < |supplied|
  {
    var name, expression := supplied[i].name, supplied[i].expression;
    if name in Names(supplied[..i]) then [Mismatch(Duplicate, name, [expression])]
    else if name !in required then [Mismatch(Extra, name, [expression])]
    else []
  }

  function SuppliedMismatches<X>(required: seq<Bytes>, supplied: seq<Binding<X>>, n: nat): seq<Mismatch<X>>
    requires n <= |supplied|
  {
    if n == 0 then [] else SuppliedMismatches(required, supplied, n - 1) + AboutSupplied(required, supplied, n - 1)
  }

  function MissingMismatches<X>(required: seq<Bytes>, supplied: seq<Binding<X>>): seq<Mismatch<X>> {
    if required == [] then []
    else
      var name := required[|required| - 1];
      MissingMismatches(required[..|required| - 1], supplied)
      + if name in Names(supplied) then [] else [Mismatch(Missing, name, [])]
  }

  /** Supplied problems in the order they were written, then the missing names in the order the message needs them. */
  function Mismatches<X>(required: seq<Bytes>, supplied: seq<Binding<X>>): seq<Mismatch<X>> {
    SuppliedMismatches(required, supplied, |supplied|) + MissingMismatches(required, supplied)
  }

  ghost predicate NoRepeats(names: seq<Bytes>) {
    forall i, j :: 0 <= i < j < |names| ==> names[i] != names[j]
  }

  /** The names supplied are each supplied once, and are the names required. */
  ghost predicate Matches<X>(required: seq<Bytes>, supplied: seq<Binding<X>>) {
    NoRepeats(Names(supplied)) && forall name :: name in Names(supplied) <==> name in required
  }

  lemma NamesIn<X>(supplied: seq<Binding<X>>, n: nat, name: Bytes)
    requires n <= |supplied|
    ensures name in Names(supplied[..n]) <==> exists j :: 0 <= j < n && supplied[j].name == name
  {
    var names := Names(supplied[..n]);
    if j :| 0 <= j < n && supplied[j].name == name {
      assert names[j] == name;
    }
  }

  lemma {:induction false} SuppliedFine<X>(required: seq<Bytes>, supplied: seq<Binding<X>>, n: nat)
    requires n <= |supplied|
    ensures SuppliedMismatches(required, supplied, n) == []
       <==> && (forall i, j :: 0 <= i < j < n ==> supplied[i].name != supplied[j].name)
            && (forall i :: 0 <= i < n ==> supplied[i].name in required)
  {
    hide AboutSupplied;
    if n > 0 {
      SuppliedFine(required, supplied, n - 1);
      NothingAbout(required, supplied, n - 1);
    }
  }

  lemma NothingAbout<X>(required: seq<Bytes>, supplied: seq<Binding<X>>, i: nat)
    requires i < |supplied|
    ensures AboutSupplied(required, supplied, i) == []
       <==> (forall j :: 0 <= j < i ==> supplied[j].name != supplied[i].name) && supplied[i].name in required
  {
    hide Names;
    NamesIn(supplied, i, supplied[i].name);
  }

  lemma InPrefix(names: seq<Bytes>)
    requires names != []
    ensures forall name :: name in names <==> name in names[..|names| - 1] || name == names[|names| - 1]
  {
    var n := |names| - 1;
    assert names == names[..n] + [names[n]];
  }

  lemma {:induction false} NoneMissing<X>(required: seq<Bytes>, supplied: seq<Binding<X>>)
    ensures MissingMismatches(required, supplied) == [] <==> forall name :: name in required ==> name in Names(supplied)
  {
    hide Names;
    if required != [] {
      var n := |required| - 1;
      NoneMissing(required[..n], supplied);
      InPrefix(required);
    }
  }

  /** Nothing is reported exactly when the supplied names are the required ones, each once. */
  lemma MatchesExactly<X>(required: seq<Bytes>, supplied: seq<Binding<X>>)
    ensures Mismatches(required, supplied) == [] <==> Matches(required, supplied)
  {
    hide SuppliedMismatches, MissingMismatches;
    SuppliedFine(required, supplied, |supplied|);
    NoneMissing(required, supplied);
    var names := Names(supplied);
    assert forall i :: 0 <= i < |names| ==> names[i] in names;
    if forall i :: 0 <= i < |supplied| ==> supplied[i].name in required {
      forall name | name in names
        ensures name in required
      {
        var i :| 0 <= i < |names| && names[i] == name;
        assert supplied[i].name in required;
      }
    }
    if Matches(required, supplied) {
      forall i | 0 <= i < |supplied|
        ensures supplied[i].name in required
      {
        assert names[i] in names;
      }
    }
  }

  // ---- one record for each name that is wrong

  function Times<X>(mismatches: seq<Mismatch<X>>, cause: Cause, name: Bytes): nat {
    if mismatches == [] then 0
    else
      var last := mismatches[|mismatches| - 1];
      Times(mismatches[..|mismatches| - 1], cause, name) + if last.cause == cause && last.name == name then 1 else 0
  }

  function Occurs(names: seq<Bytes>, name: Bytes): nat {
    if names == [] then 0 else Occurs(names[..|names| - 1], name) + if names[|names| - 1] == name then 1 else 0
  }

  lemma {:induction false} OccursIn(names: seq<Bytes>, name: Bytes)
    ensures Occurs(names, name) > 0 <==> name in names
  {
    if names != [] {
      var n := |names| - 1;
      OccursIn(names[..n], name);
      assert names == names[..n] + [names[n]];
    }
  }

  lemma TimesOneMore<X>(mismatches: seq<Mismatch<X>>, more: seq<Mismatch<X>>, cause: Cause, name: Bytes)
    requires |more| <= 1
    ensures Times(mismatches + more, cause, name)
         == Times(mismatches, cause, name) + if |more| == 1 && more[0].cause == cause && more[0].name == name then 1 else 0
  {
    if more == [] {
      assert mismatches + more == mismatches;
    } else {
      assert (mismatches + more)[..|mismatches|] == mismatches;
    }
  }

  lemma {:induction false} TimesConcat<X>(a: seq<Mismatch<X>>, b: seq<Mismatch<X>>, cause: Cause, name: Bytes)
    ensures Times(a + b, cause, name) == Times(a, cause, name) + Times(b, cause, name)
    decreases |b|
  {
    if b == [] {
      assert a + b == a;
    } else {
      var n := |b| - 1;
      assert (a + b)[..|a + b| - 1] == a + b[..n];
      TimesConcat(a, b[..n], cause, name);
    }
  }

  lemma SuppliedMore<X>(required: seq<Bytes>, supplied: seq<Binding<X>>, n: nat)
    requires n < |supplied|
    ensures SuppliedMismatches(required, supplied, n + 1)
         == SuppliedMismatches(required, supplied, n) + AboutSupplied(required, supplied, n)
    ensures Names(supplied[..n + 1]) == Names(supplied[..n]) + [supplied[n].name]
  {
  }

  lemma OccursMore<X>(supplied: seq<Binding<X>>, n: nat, name: Bytes)
    requires n < |supplied|
    ensures Occurs(Names(supplied[..n + 1]), name)
         == Occurs(Names(supplied[..n]), name) + if supplied[n].name == name then 1 else 0
  {
    var names := Names(supplied[..n]);
    assert Names(supplied[..n + 1]) == names + [supplied[n].name];
    assert (names + [supplied[n].name])[..n] == names;
  }

  predicate Is<X>(about: seq<Mismatch<X>>, cause: Cause, name: Bytes) {
    |about| == 1 && about[0].cause == cause && about[0].name == name
  }

  lemma AboutIs<X>(required: seq<Bytes>, supplied: seq<Binding<X>>, i: nat, name: Bytes)
    requires i < |supplied|
    ensures var about, again := AboutSupplied(required, supplied, i), Occurs(Names(supplied[..i]), name) > 0;
            && |about| <= 1 && !Is(about, Missing, name)
            && (Is(about, Duplicate, name) <==> supplied[i].name == name && again)
            && (Is(about, Extra, name) <==> supplied[i].name == name && !again && name !in required)
  {
    hide Names, Occurs;
    OccursIn(Names(supplied[..i]), name);
  }

  predicate Tallied<X>(mismatches: seq<Mismatch<X>>, seen: nat, wanted: bool, name: Bytes) {
    && Times(mismatches, Duplicate, name) == (if seen == 0 then 0 else seen - 1)
    && Times(mismatches, Extra, name) == (if seen == 0 || wanted then 0 else 1)
    && Times(mismatches, Missing, name) == 0
  }

  lemma TallyMore<X>(before: seq<Mismatch<X>>, about: seq<Mismatch<X>>, seen: nat, here: bool, wanted: bool, name: Bytes)
    requires Tallied(before, seen, wanted, name) && |about| <= 1 && !Is(about, Missing, name)
    requires Is(about, Duplicate, name) <==> here && seen > 0
    requires Is(about, Extra, name) <==> here && seen == 0 && !wanted
    ensures Tallied(before + about, if here then seen + 1 else seen, wanted, name)
  {
    hide Times;
    TimesOneMore(before, about, Duplicate, name);
    TimesOneMore(before, about, Extra, name);
    TimesOneMore(before, about, Missing, name);
  }

  lemma {:induction false} SuppliedTimes<X>(required: seq<Bytes>, supplied: seq<Binding<X>>, name: Bytes, n: nat)
    requires n <= |supplied|
    ensures Tallied(SuppliedMismatches(required, supplied, n), Occurs(Names(supplied[..n]), name), name in required, name)
  {
    hide *;
    if n > 0 {
      SuppliedTimes(required, supplied, name, n - 1);
      SuppliedMore(required, supplied, n - 1);
      OccursMore(supplied, n - 1, name);
      AboutIs(required, supplied, n - 1, name);
      TallyMore(SuppliedMismatches(required, supplied, n - 1), AboutSupplied(required, supplied, n - 1),
                Occurs(Names(supplied[..n - 1]), name), supplied[n - 1].name == name, name in required, name);
    } else {
      NoneTallied(required, supplied, name);
    }
  }

  lemma NoneTallied<X>(required: seq<Bytes>, supplied: seq<Binding<X>>, name: Bytes)
    ensures Tallied(SuppliedMismatches(required, supplied, 0), Occurs(Names(supplied[..0]), name), name in required, name)
  {
  }

  lemma NoTimes<X>(name: Bytes)
    ensures forall cause, none: seq<Mismatch<X>> :: none == [] ==> Times(none, cause, name) == 0
  {
  }

  lemma {:induction false} MissingTimes<X>(required: seq<Bytes>, supplied: seq<Binding<X>>, name: Bytes)
    ensures var mismatches := MissingMismatches(required, supplied);
            && Times(mismatches, Missing, name) == (if name in Names(supplied) then 0 else Occurs(required, name))
            && Times(mismatches, Duplicate, name) == Times(mismatches, Extra, name) == 0
  {
    if required != [] {
      hide Times;
      var n := |required| - 1;
      var last := required[n];
      var about: seq<Mismatch<X>> := if last in Names(supplied) then [] else [Mismatch(Missing, last, [])];
      MissingTimes(required[..n], supplied, name);
      TimesOneMore(MissingMismatches(required[..n], supplied), about, Missing, name);
      TimesOneMore(MissingMismatches(required[..n], supplied), about, Duplicate, name);
      TimesOneMore(MissingMismatches(required[..n], supplied), about, Extra, name);
    } else {
      NoTimes<X>(name);
    }
  }

  /** A name supplied again is reported each further time; one not required, once; one not supplied, as often as
      it is required. */
  lemma OneRecordEach<X>(required: seq<Bytes>, supplied: seq<Binding<X>>, name: Bytes)
    ensures var given := Occurs(Names(supplied), name);
            var mismatches := Mismatches(required, supplied);
            && Times(mismatches, Duplicate, name) == (if given == 0 then 0 else given - 1)
            && Times(mismatches, Extra, name) == (if given == 0 || name in required then 0 else 1)
            && Times(mismatches, Missing, name) == (if given == 0 then Occurs(required, name) else 0)
  {
    hide Times, Occurs;
    var a, b := SuppliedMismatches(required, supplied, |supplied|), MissingMismatches(required, supplied);
    assert supplied[..|supplied|] == supplied;
    SuppliedTimes(required, supplied, name, |supplied|);
    MissingTimes(required, supplied, name);
    OccursIn(Names(supplied), name);
    TimesConcat(a, b, Duplicate, name);
    TimesConcat(a, b, Extra, name);
    TimesConcat(a, b, Missing, name);
  }

  // ---- what the records are

  /** What is said of the `i`-th parameter supplied. */
  ghost predicate SaidOfSupplied<X>(required: seq<Bytes>, supplied: seq<Binding<X>>, i: nat, piece: seq<Mismatch<X>>)
    requires i < |supplied|
  {
    var Binding(name, expression) := supplied[i];
    if exists j :: 0 <= j < i && supplied[j].name == name then piece == [Mismatch(Duplicate, name, [expression])]
    else if forall k :: 0 <= k < |required| ==> required[k] != name then piece == [Mismatch(Extra, name, [expression])]
    else piece == []
  }

  /** What is said of the `i`-th name required. */
  ghost predicate SaidOfRequired<X>(required: seq<Bytes>, supplied: seq<Binding<X>>, i: nat, piece: seq<Mismatch<X>>)
    requires i < |required|
  {
    if exists j :: 0 <= j < |supplied| && supplied[j].name == required[i] then piece == []
    else piece == [Mismatch(Missing, required[i], [])]
  }

  ghost predicate SuppliedCut<X>(required: seq<Bytes>, supplied: seq<Binding<X>>, said: seq<Mismatch<X>>, at: seq<nat>, n: nat) {
    && n <= |supplied| && Cuts(said, at, n)
    && forall i :: 0 <= i < n ==> SaidOfSupplied(required, supplied, i, Piece(said, at, n, i))
  }

  ghost predicate RequiredCut<X>(required: seq<Bytes>, supplied: seq<Binding<X>>, said: seq<Mismatch<X>>, at: seq<nat>) {
    var n := |required|;
    Cuts(said, at, n) && forall i :: 0 <= i < n ==> SaidOfRequired(required, supplied, i, Piece(said, at, n, i))
  }

  lemma SuppliedMeans<X>(required: seq<Bytes>, supplied: seq<Binding<X>>, i: nat)
    requires i < |supplied|
    ensures SaidOfSupplied(required, supplied, i, AboutSupplied(required, supplied, i))
  {
    hide Names;
    NamesIn(supplied, i, supplied[i].name);
  }

  lemma OneSuppliedMore<X>(required: seq<Bytes>, supplied: seq<Binding<X>>, said: seq<Mismatch<X>>, at: seq<nat>, n: nat,
                           piece: seq<Mismatch<X>>)
    returns (more: seq<nat>)
    requires n < |supplied| && SuppliedCut(required, supplied, said, at, n) && SaidOfSupplied(required, supplied, n, piece)
    ensures SuppliedCut(required, supplied, said + piece, more, n + 1)
  {
    hide Cuts, SaidOfSupplied;
    more := OnePieceMore(said, at, n, piece);
    var m := n + 1;
    forall i | 0 <= i < m
      ensures SaidOfSupplied(required, supplied, i, Piece(said + piece, more, m, i))
    {
      assert i < n ==> Piece(said + piece, more, m, i) == Piece(said, at, n, i);
    }
  }

  lemma {:induction false} SuppliedExactly<X>(required: seq<Bytes>, supplied: seq<Binding<X>>, n: nat) returns (at: seq<nat>)
    requires n <= |supplied|
    ensures SuppliedCut(required, supplied, SuppliedMismatches(required, supplied, n), at, n)
  {
    hide AboutSupplied, SaidOfSupplied;
    at := [0];
    if n > 0 {
      at := SuppliedExactly(required, supplied, n - 1);
      SuppliedMeans(required, supplied, n - 1);
      at := OneSuppliedMore(required, supplied, SuppliedMismatches(required, supplied, n - 1), at, n - 1,
                            AboutSupplied(required, supplied, n - 1));
    }
  }

  lemma RequiredMeans<X>(required: seq<Bytes>, supplied: seq<Binding<X>>, i: nat)
    requires i < |required|
    ensures SaidOfRequired(required, supplied, i,
                           if required[i] in Names(supplied) then [] else [Mismatch(Missing, required[i], [])])
  {
    hide Names;
    NamesIn(supplied, |supplied|, required[i]);
    assert supplied[..|supplied|] == supplied;
  }

  lemma OneRequiredMore<X>(required: seq<Bytes>, supplied: seq<Binding<X>>, said: seq<Mismatch<X>>, at: seq<nat>,
                           piece: seq<Mismatch<X>>)
    returns (more: seq<nat>)
    requires required != [] && RequiredCut(required[..|required| - 1], supplied, said, at)
    requires SaidOfRequired(required, supplied, |required| - 1, piece)
    ensures RequiredCut(required, supplied, said + piece, more)
  {
    hide Cuts;
    var n := |required| - 1;
    more := OnePieceMore(said, at, n, piece);
    var m := n + 1;
    forall i | 0 <= i < m
      ensures SaidOfRequired(required, supplied, i, Piece(said + piece, more, m, i))
    {
      assert i < n ==> SaidOfRequired(required[..n], supplied, i, Piece(said, at, n, i));
    }
  }

  lemma {:induction false} RequiredExactly<X>(required: seq<Bytes>, supplied: seq<Binding<X>>) returns (at: seq<nat>)
    ensures RequiredCut(required, supplied, MissingMismatches(required, supplied), at)
  {
    hide SaidOfRequired, Names;
    at := [0];
    if required != [] {
      var n := |required| - 1;
      at := RequiredExactly(required[..n], supplied);
      RequiredMeans(required, supplied, n);
      at := OneRequiredMore(required, supplied, MissingMismatches(required[..n], supplied), at,
                            if required[n] in Names(supplied) then [] else [Mismatch(Missing, required[n], [])]);
    }
  }

  /** Parameter by parameter as supplied, then name by name as required, with the expression that supplied it. */
  lemma RecordsExactly<X>(required: seq<Bytes>, supplied: seq<Binding<X>>)
    returns (said: seq<Mismatch<X>>, at: seq<nat>, missing: seq<Mismatch<X>>, cut: seq<nat>)
    ensures Mismatches(required, supplied) == said + missing
    ensures SuppliedCut(required, supplied, said, at, |supplied|) && RequiredCut(required, supplied, missing, cut)
  {
    said, missing := SuppliedMismatches(required, supplied, |supplied|), MissingMismatches(required, supplied);
    at := SuppliedExactly(required, supplied, |supplied|);
    cut := RequiredExactly(required, supplied);
  }

  /** The records of every name that is wrong, pushed in their stated order.  The verdict is the caller's only way to
      know, since its sink may have stopped keeping records. */
  method CompareParameters<X>(required: seq<Bytes>, supplied: seq<Binding<X>>, sink: Sink<Mismatch<X>>) returns (matched: bool)
    requires sink.Valid()
    modifies sink
    ensures sink.Valid() && sink.received == old(sink.received) + Mismatches(required, supplied)
    ensures matched <==> Matches(required, supplied)
  {
    hide Matches, SuppliedMismatches, MissingMismatches;
    var seen, fine := ReportSupplied(required, supplied, sink);
    var complete := ReportMissing(required, supplied, seen, sink);
    matched := fine && complete;
    MatchesExactly(required, supplied);
  }

  method ReportSupplied<X>(required: seq<Bytes>, supplied: seq<Binding<X>>, sink: Sink<Mismatch<X>>)
    returns (seen: set<Bytes>, matched: bool)
    requires sink.Valid()
    modifies sink
    ensures sink.Valid() && sink.received == old(sink.received) + SuppliedMismatches(required, supplied, |supplied|)
    ensures forall name :: name in seen <==> name in Names(supplied)
    ensures matched <==> SuppliedMismatches(required, supplied, |supplied|) == []
  {
    hide Names, SuppliedMismatches;
    seen := {};
    matched := true;
    NothingSupplied(required, supplied);
    for i := 0 to |supplied|
      invariant sink.Valid() && sink.received == old(sink.received) + SuppliedMismatches(required, supplied, i)
      invariant forall name :: name in seen <==> name in Names(supplied[..i])
      invariant matched <==> SuppliedMismatches(required, supplied, i) == []
    {
      var binding := supplied[i];
      SuppliedMore(required, supplied, i);
      if binding.name in seen {
        matched := false;
        sink.Push(Mismatch(Duplicate, binding.name, [binding.expression]));
      } else {
        seen := seen + {binding.name};
        if binding.name !in required {
          matched := false;
          sink.Push(Mismatch(Extra, binding.name, [binding.expression]));
        }
      }
    }
    assert supplied[..|supplied|] == supplied;
  }

  lemma NothingSupplied<X>(required: seq<Bytes>, supplied: seq<Binding<X>>)
    ensures SuppliedMismatches(required, supplied, 0) == [] && Names(supplied[..0]) == []
  {
  }

  method ReportMissing<X>(required: seq<Bytes>, supplied: seq<Binding<X>>, seen: set<Bytes>, sink: Sink<Mismatch<X>>)
    returns (matched: bool)
    requires sink.Valid() && forall name :: name in seen <==> name in Names(supplied)
    modifies sink
    ensures sink.Valid() && sink.received == old(sink.received) + MissingMismatches(required, supplied)
    ensures matched <==> MissingMismatches(required, supplied) == []
  {
    hide Names, MissingMismatches;
    matched := true;
    NothingMissing(required[..0], supplied);
    for i := 0 to |required|
      invariant sink.Valid()
      invariant sink.received == old(sink.received) + MissingMismatches(required[..i], supplied)
      invariant matched <==> MissingMismatches(required[..i], supplied) == []
    {
      MissingMore(required, supplied, i);
      if required[i] !in seen {
        matched := false;
        sink.Push(Mismatch(Missing, required[i], []));
      }
    }
    assert required[..|required|] == required;
  }

  lemma NothingMissing<X>(none: seq<Bytes>, supplied: seq<Binding<X>>)
    requires none == []
    ensures MissingMismatches(none, supplied) == []
  {
  }

  lemma MissingMore<X>(required: seq<Bytes>, supplied: seq<Binding<X>>, n: nat)
    requires n < |required|
    ensures MissingMismatches(required[..n + 1], supplied)
         == MissingMismatches(required[..n], supplied)
            + if required[n] in Names(supplied) then [] else [Mismatch(Missing, required[n], [])]
  {
    hide Names;
    assert required[..n + 1][..n] == required[..n];
  }
}
