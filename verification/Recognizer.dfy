/** The recognizer's tables, and the two things done with them when the walk is over: resolving every
    identifier handed to `intent()`, and checking that no two declarations claim the same source. */
module Recognizer {
  import opened Wrappers
  import opened SpanTree
  import opened Sorting
  import opened Reports
  import opened Aliases
  import opened Pieces

  datatype Failure =
    | TooManyDeclarations
    | TooManyReferences
    | TooManyRecords

  datatype Detail =
    | TemplateSubstitution
    | DeclarationAlias
    | ModuleReference
    | MessageDynamic

  /** An identifier whose meaning waits for the end of the walk. */
  datatype Pending<P> = Pending(span: Span, symbol: Option<Symbol>, occurrence: Span, parameters: Option<P>)

  datatype Use<P> = Use(occurrence: Span, declaration: nat, shared: bool, parameters: P)

  datatype Declared<P> = Declared(occurrence: Span, parameters: Option<P>)

  // ---- what resolving is to do

  /** What an identifier names; one with no binding is a global, whose value is not known. */
  ghost function NameOf(scope: Scope, symbol: Option<Symbol>): (r: Named)
    ensures symbol.None? ==> r == Dynamic
    ensures symbol.Some? ==> Names(scope, symbol.value, r)
  {
    if symbol.None? then Dynamic
    else
      assert exists r :: Names(scope, symbol.value, r) by {
        var r := NameExists(scope, symbol.value);
      }
      var r :| Names(scope, symbol.value, r);
      r
  }

  function DetailOf(name: Named): Option<Detail> {
    match name
    case Declaration(_) => None
    case Failed => None
    case Intrinsic => None
    case Aliased => Some(DeclarationAlias)
    case Module => Some(ModuleReference)
    case Dynamic => Some(MessageDynamic)
  }

  ghost function UseOf<P>(scope: Scope, pending: Pending<P>): seq<Use<P>> {
    var name := NameOf(scope, pending.symbol);
    if name.Declaration? && pending.parameters.Some? then
      [Use(pending.occurrence, name.index, true, pending.parameters.value)]
    else []
  }

  ghost function RecordOf<P>(scope: Scope, pending: Pending<P>): seq<Record<Detail>> {
    var detail := DetailOf(NameOf(scope, pending.symbol));
    if detail.Some? then [Record(detail.value, pending.span)] else []
  }

  ghost function UsesOf<P>(scope: Scope, pending: seq<Pending<P>>): seq<Use<P>> {
    if pending == [] then [] else UsesOf(scope, pending[..|pending| - 1]) + UseOf(scope, pending[|pending| - 1])
  }

  ghost function RecordsOf<P>(scope: Scope, pending: seq<Pending<P>>): seq<Record<Detail>> {
    if pending == [] then [] else RecordsOf(scope, pending[..|pending| - 1]) + RecordOf(scope, pending[|pending| - 1])
  }

  lemma OneMore<P>(scope: Scope, pending: seq<Pending<P>>, n: nat)
    requires n < |pending|
    ensures UsesOf(scope, pending[..n + 1]) == UsesOf(scope, pending[..n]) + UseOf(scope, pending[n])
    ensures RecordsOf(scope, pending[..n + 1]) == RecordsOf(scope, pending[..n]) + RecordOf(scope, pending[n])
  {
    hide UseOf, RecordOf;
    assert pending[..n + 1][..n] == pending[..n];
  }

  lemma {:induction false} PrefixesGrow<P>(scope: Scope, pending: seq<Pending<P>>, n: nat)
    requires n <= |pending|
    ensures |UsesOf(scope, pending[..n])| <= |UsesOf(scope, pending)|
    ensures |RecordsOf(scope, pending[..n])| <= |RecordsOf(scope, pending)|
    decreases |pending| - n
  {
    hide UseOf, RecordOf, UsesOf, RecordsOf;
    if n == |pending| {
      assert pending[..n] == pending;
    } else {
      PrefixesGrow(scope, pending, n + 1);
      OneMore(scope, pending, n);
    }
  }

  // ---- what resolving means

  /** What is reported of one identifier, and when. */
  ghost predicate Reported<P>(scope: Scope, pending: Pending<P>, piece: seq<Record<Detail>>) {
    var bound := pending.symbol;
    && (piece == [Record(DeclarationAlias, pending.span)] <==> bound.Some? && LeadsToTag(scope, bound.value))
    && (piece == [Record(ModuleReference, pending.span)]
        <==> bound.Some? && exists t :: LeadsOutTo(scope, bound.value, t) && t in scope.imports && t !in scope.intrinsics)
    && (piece == [Record(MessageDynamic, pending.span)]
        <==> || bound.None? || LeadsRound(scope, bound.value)
             || exists t :: LeadsOutTo(scope, bound.value, t) && t !in scope.imports && t !in scope.intrinsics)
    && (piece == []
        <==> && bound.Some?
             && (|| (bound.value in scope.constants && scope.constants[bound.value].Mf2?)
                 || exists t :: LeadsOutTo(scope, bound.value, t) && t in scope.intrinsics))
  }

  /** The identifier is itself bound to an `mf2` tag that declared something. */
  predicate DeclaresItself<P>(scope: Scope, pending: Pending<P>) {
    && pending.symbol.Some? && pending.symbol.value in scope.constants && scope.constants[pending.symbol.value].Mf2?
    && scope.constants[pending.symbol.value].tag in scope.tags
  }

  /** What use is made of one identifier, and when. */
  ghost predicate Used<P>(scope: Scope, pending: Pending<P>, piece: seq<Use<P>>) {
    if DeclaresItself(scope, pending) && pending.parameters.Some? then
      var index := scope.tags[scope.constants[pending.symbol.value].tag];
      piece == [Use(pending.occurrence, index, true, pending.parameters.value)]
    else piece == []
  }

  /** The records are those of each identifier, in order. */
  ghost predicate RecordsExplained<P>(scope: Scope, pending: seq<Pending<P>>, records: seq<Record<Detail>>) {
    exists at :: RecordsCut(scope, pending, records, at)
  }

  ghost predicate RecordsCut<P>(scope: Scope, pending: seq<Pending<P>>, records: seq<Record<Detail>>, at: seq<nat>) {
    var n := |pending|;
    Cuts(records, at, n) && forall i :: 0 <= i < n ==> Reported(scope, pending[i], Piece(records, at, n, i))
  }

  /** The uses are those made of each identifier, in order. */
  ghost predicate UsesExplained<P>(scope: Scope, pending: seq<Pending<P>>, uses: seq<Use<P>>) {
    exists at :: UsesCut(scope, pending, uses, at)
  }

  ghost predicate UsesCut<P>(scope: Scope, pending: seq<Pending<P>>, uses: seq<Use<P>>, at: seq<nat>) {
    var n := |pending|;
    Cuts(uses, at, n) && forall i :: 0 <= i < n ==> Used(scope, pending[i], Piece(uses, at, n, i))
  }

  lemma RecordMeans<P>(scope: Scope, pending: Pending<P>)
    requires Lexical(scope)
    ensures Reported(scope, pending, RecordOf(scope, pending))
  {
    hide Lexical, Names, Ends, Leaves, LeadsOutTo, LeadsToTag, LeadsRound;
    var r := NameOf(scope, pending.symbol);
    if pending.symbol.Some? {
      NamedExactly(scope, pending.symbol.value, r);
      ChainsMean(scope, pending.symbol.value);
    }
  }

  lemma UseMeans<P>(scope: Scope, pending: Pending<P>)
    requires Lexical(scope)
    ensures Used(scope, pending, UseOf(scope, pending))
  {
    hide Lexical, Names, Ends, Leaves;
    if pending.symbol.Some? {
      var r := NameOf(scope, pending.symbol);
      NamedExactly(scope, pending.symbol.value, r);
      assert r.Declaration? ==> r == Declaration(r.index);
      assert DeclaresItself(scope, pending) ==> r == Declaration(scope.tags[scope.constants[pending.symbol.value].tag]);
    }
  }

  lemma {:induction false} RecordsExactly<P>(scope: Scope, pending: seq<Pending<P>>)
    requires Lexical(scope)
    ensures RecordsExplained(scope, pending, RecordsOf(scope, pending))
    decreases |pending|
  {
    hide Lexical, Reported, RecordOf, Cuts;
    if pending == [] {
      NoPieces(RecordsOf(scope, pending));
      assert RecordsCut(scope, pending, RecordsOf(scope, pending), [0]);
    } else {
      var n := |pending| - 1;
      RecordsExactly(scope, pending[..n]);
      var records := RecordsOf(scope, pending[..n]);
      var at :| RecordsCut(scope, pending[..n], records, at);
      RecordMeans(scope, pending[n]);
      var more := OnePieceMore(records, at, n, RecordOf(scope, pending[n]));
      assert RecordsCut(scope, pending, RecordsOf(scope, pending), more);
    }
  }

  lemma {:induction false} UsesExactly<P>(scope: Scope, pending: seq<Pending<P>>)
    requires Lexical(scope)
    ensures UsesExplained(scope, pending, UsesOf(scope, pending))
    decreases |pending|
  {
    hide Lexical, Used, UseOf, Cuts;
    if pending == [] {
      NoPieces(UsesOf(scope, pending));
      assert UsesCut(scope, pending, UsesOf(scope, pending), [0]);
    } else {
      var n := |pending| - 1;
      UsesExactly(scope, pending[..n]);
      var uses := UsesOf(scope, pending[..n]);
      var at :| UsesCut(scope, pending[..n], uses, at);
      UseMeans(scope, pending[n]);
      var more := OnePieceMore(uses, at, n, UseOf(scope, pending[n]));
      assert UsesCut(scope, pending, UsesOf(scope, pending), more);
    }
  }

  class Walk<P> {
    var constants: Constants
    /** Each tag declared, with the index of what it declared. */
    var tags: map<Span, nat>
    var pending: seq<Pending<P>>
    var declarations: seq<Declared<P>>
    var uses: seq<Use<P>>
    const intrinsics: set<Symbol>
    const imports: set<Symbol>
    const declarationLimit: nat
    const referenceLimit: nat

    constructor (intrinsics: set<Symbol>, imports: set<Symbol>, declarationLimit: nat, referenceLimit: nat)
      ensures Valid() && constants == map[] && tags == map[] && pending == [] && declarations == [] && uses == []
      ensures this.intrinsics == intrinsics && this.imports == imports
      ensures this.declarationLimit == declarationLimit && this.referenceLimit == referenceLimit
    {
      this.intrinsics, this.imports := intrinsics, imports;
      this.declarationLimit, this.referenceLimit := declarationLimit, referenceLimit;
      constants, tags, pending, declarations, uses := map[], map[], [], [], [];
    }

    /** Every tag leads to the declaration made of it, and every use to a declaration. */
    ghost predicate Valid()
      reads this
    {
      && (forall tag :: tag in tags ==> tags[tag] < |declarations| && declarations[tags[tag]].occurrence == tag)
      && (forall i :: 0 <= i < |uses| ==> uses[i].declaration < |declarations|)
      && |declarations| <= declarationLimit && |uses| <= referenceLimit
    }

    function Scope(): Scope
      reads this
    {
      Aliases.Scope(constants, tags, intrinsics, imports)
    }

    /** A `const` binding whose initializer matters. */
    method Bind(symbol: Symbol, initializer: Initializer)
      requires Valid()
      modifies this`constants
      ensures Valid() && constants == old(constants)[symbol := initializer]
    {
      constants := constants[symbol := initializer];
    }

    /** Declare one `mf2` tag, whose text could be read unless it was reported. */
    method Mf2(tag: Span, substituted: bool, readable: bool, parameters: Option<P>, reporter: Reporter<Detail>)
      returns (r: Result<Option<nat>, Failure>)
      requires Valid() && reporter.Valid()
      modifies this`tags, this`declarations, reporter
      ensures Valid() && reporter.Valid()
      ensures r == Ok(Some(|old(declarations)|)) ==>
                && declarations == old(declarations) + [Declared(tag, parameters)]
                && tags == old(tags)[tag := |old(declarations)|]
      ensures r.Err? || r.value.None? ==> declarations == old(declarations) && tags == old(tags)
      ensures r.Ok? && r.value.Some? ==> r.value.value == |old(declarations)|
      ensures !substituted && readable ==>
                r == if |old(declarations)| < declarationLimit then Ok(Some(|old(declarations)|)) else Err(TooManyDeclarations)
      ensures !substituted && !readable ==> r == Ok(None)
      ensures substituted ==> r == if |old(reporter.records)| < reporter.budget then Ok(None) else Err(TooManyRecords)
      ensures reporter.records
           == old(reporter.records) + if substituted && r.Ok? then [Record(TemplateSubstitution, tag)] else []
    {
      if substituted {
        var ok := reporter.At(TemplateSubstitution, tag);
        return if ok then Ok(None) else Err(TooManyRecords);
      }
      if !readable {
        return Ok(None);
      }
      if |declarations| >= declarationLimit {
        return Err(TooManyDeclarations);
      }
      declarations := declarations + [Declared(tag, parameters)];
      var index := |declarations| - 1;
      tags := tags[tag := index];
      return Ok(Some(index));
    }

    /** An identifier handed to `intent()`, which may name something written later. */
    method Defer(use: Pending<P>)
      requires Valid()
      modifies this`pending
      ensures Valid() && pending == old(pending) + [use]
    {
      pending := pending + [use];
    }

    method UseDeclaration(occurrence: Span, declaration: nat, shared: bool, parameters: P) returns (ok: bool)
      requires Valid() && declaration < |declarations|
      modifies this`uses
      ensures Valid() && ok == (|old(uses)| < referenceLimit)
      ensures uses == old(uses) + if ok then [Use(occurrence, declaration, shared, parameters)] else []
    {
      if |uses| >= referenceLimit {
        return false;
      }
      uses := uses + [Use(occurrence, declaration, shared, parameters)];
      return true;
    }

    /** What one identifier's binding names.  The loop is cut off, yet the answer is the one the whole chain gives. */
    method Named(bound: Option<Symbol>) returns (r: Named)
      ensures r == NameOf(Scope(), bound)
    {
      if bound.None? {
        return Dynamic;
      }
      ghost var scope := Scope();
      var symbol, aliased := bound.value, false;
      var step := 0;
      while step <= |constants|
        invariant 0 <= step <= |constants| + 1
        invariant Hop(constants, bound.value, step) == Some(symbol) && aliased == (step > 0)
      {
        HopNext(constants, bound.value, step);
        if symbol in constants {
          match constants[symbol]
          case Mf2(tag) =>
            r := if aliased then Aliased else if tag in tags then Declaration(tags[tag]) else Failed;
            EndNames(scope, bound, symbol, step, r);
            return;
          case Alias(target) =>
            aliased := true;
            symbol := target;
        } else {
          break;
        }
        step := step + 1;
      }
      r := if symbol in intrinsics then Intrinsic else if symbol in imports then Module else Dynamic;
      if step <= |constants| {
        EndNames(scope, bound, symbol, step, r);
      } else {
        TooLong(constants, bound.value);
        assert r == Outside(scope, symbol);
      }
    }

    /** Resolve every identifier handed to `intent()`, in the order they were met. */
    method Resolve(reporter: Reporter<Detail>) returns (r: Result<(), Failure>)
      requires Valid() && reporter.Valid()
      modifies this`pending, this`uses, reporter
      ensures Valid() && reporter.Valid() && pending == []
      ensures r.Ok? ==> uses == old(uses) + UsesOf(Scope(), old(pending))
      ensures r.Ok? ==> reporter.records == old(reporter.records) + RecordsOf(Scope(), old(pending))
      ensures r.Ok?
         <==> && |old(uses)| + |UsesOf(Scope(), old(pending))| <= referenceLimit
              && |old(reporter.records)| + |RecordsOf(Scope(), old(pending))| <= reporter.budget
      ensures r.Ok? && Lexical(Scope()) ==>
                && RecordsExplained(Scope(), old(pending), reporter.records[|old(reporter.records)|..])
                && UsesExplained(Scope(), old(pending), uses[|old(uses)|..])
      ensures r == Err(TooManyReferences) ==> |old(uses)| + |UsesOf(Scope(), old(pending))| > referenceLimit
      ensures r == Err(TooManyRecords) ==> |old(reporter.records)| + |RecordsOf(Scope(), old(pending))| > reporter.budget
    {
      hide NameOf, UsesOf, RecordsOf, Names, RecordsExplained, UsesExplained, Lexical;
      var taken := pending;
      ghost var scope := Scope();
      pending := [];
      NothingPending<P>(scope);
      for i := 0 to |taken|
        invariant Valid() && reporter.Valid() && pending == [] && Scope() == scope
        invariant uses == old(uses) + UsesOf(scope, taken[..i])
        invariant reporter.records == old(reporter.records) + RecordsOf(scope, taken[..i])
      {
        var next := taken[i];
        var name := Named(next.symbol);
        OneMore(scope, taken, i);
        PrefixesGrow(scope, taken, i + 1);
        if name.Declaration? && next.parameters.Some? {
          DeclarationExists(scope, next.symbol, name);
          var ok := UseDeclaration(next.occurrence, name.index, true, next.parameters.value);
          if !ok {
            return Err(TooManyReferences);
          }
        }
        var detail := DetailOf(name);
        if detail.Some? {
          var ok := reporter.At(detail.value, next.span);
          if !ok {
            return Err(TooManyRecords);
          }
        }
      }
      assert taken[..|taken|] == taken;
      if Lexical(scope) {
        RecordsExactly(scope, taken);
        UsesExactly(scope, taken);
      }
      r := Ok(());
    }
  }

  lemma NothingPending<P>(scope: Scope)
    ensures forall pending: seq<Pending<P>> :: pending == [] ==> UsesOf(scope, pending) == [] && RecordsOf(scope, pending) == []
  {
  }

  /** What the chain ends at is what the identifier names. */
  lemma EndNames(scope: Scope, bound: Option<Symbol>, t: Symbol, n: nat, r: Named)
    requires bound.Some? && Ends(scope.constants, bound.value, t, n) && r == NameAt(scope, t, n > 0)
    ensures r == NameOf(scope, bound)
  {
    hide NameAt;
    NameOfEnd(scope, bound.value, NameOf(scope, bound), t, n);
  }

  lemma DeclarationExists(scope: Scope, symbol: Option<Symbol>, name: Named)
    requires name == NameOf(scope, symbol) && name.Declaration?
    ensures exists tag :: tag in scope.tags && scope.tags[tag] == name.index
  {
    var s := symbol.value;
    EndsOrEndless(scope.constants, s);
    EndlessOutside(scope, s, name);
    var t, n: nat :| Ends(scope.constants, s, t, n);
    NameOfEnd(scope, s, name, t, n);
    assert scope.constants[t].tag in scope.tags;
  }

  // ---- overlapping declarations

  /** Each starts before the other ends; ranges that only touch do not. */
  predicate Overlap(a: Span, b: Span) {
    a.start < b.end && b.start < a.end
  }

  ghost predicate AnyOverlap(ranges: seq<Span>) {
    SomePair(ranges, Overlap)
  }

  /** In order, some two overlap exactly when two neighbours do. */
  lemma NeighboursOverlap(ranges: seq<Span>)
    requires Sorted(ranges, SpanLe) && forall i :: 0 <= i < |ranges| ==> ranges[i].start <= ranges[i].end
    ensures AnyOverlap(ranges)
       <==> exists i :: 0 <= i < |ranges| - 1 && ranges[i + 1].start < ranges[i].end
  {
    if AnyOverlap(ranges) {
      var i, j :| 0 <= i < j < |ranges| && Overlap(ranges[i], ranges[j]);
      assert i + 1 == j || SpanLe(ranges[i + 1], ranges[j]);
      assert ranges[i + 1].start < ranges[i].end;
    }
    if i :| 0 <= i < |ranges| - 1 && ranges[i + 1].start < ranges[i].end {
      assert SpanLe(ranges[i], ranges[i + 1]);
      assert Overlap(ranges[i], ranges[i + 1]);
    }
  }

  /** Found exactly when some two ranges, neighbours or not, overlap. */
  method Overlapping(ranges: seq<Span>) returns (found: bool)
    requires forall i :: 0 <= i < |ranges| ==> ranges[i].start <= ranges[i].end
    ensures found <==> exists i, j :: 0 <= i < j < |ranges| && Overlap(ranges[i], ranges[j])
    ensures found <==> exists i, j :: 0 <= i < j < |ranges| && ranges[i].start < ranges[j].end && ranges[j].start < ranges[i].end
  {
    var sorted := Sort(ranges, SpanLe);
    SortedSpans(ranges, sorted);
    found := false;
    var i := 0;
    while i + 1 < |sorted|
      invariant !found && forall k :: 0 <= k < i && k < |sorted| - 1 ==> sorted[k].end <= sorted[k + 1].start
    {
      if sorted[i + 1].start < sorted[i].end {
        return true;
      }
      i := i + 1;
    }
  }

  lemma SortedSpans(ranges: seq<Span>, sorted: seq<Span>)
    requires Sorted(sorted, SpanLe) && multiset(sorted) == multiset(ranges)
    requires forall i :: 0 <= i < |ranges| ==> ranges[i].start <= ranges[i].end
    ensures AnyOverlap(ranges) <==> exists i :: 0 <= i < |sorted| - 1 && sorted[i + 1].start < sorted[i].end
  {
    SameElements(sorted, ranges);
    forall i | 0 <= i < |sorted|
      ensures sorted[i].start <= sorted[i].end
    {
      assert sorted[i] in ranges;
    }
    SomePairAnyOrder(ranges, sorted, Overlap);
    NeighboursOverlap(sorted);
  }
}
