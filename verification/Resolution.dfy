/** Resolving the declarations of one invocation, each on its own, as `resolve_declarations_with_cancellation` of
    `crates/intlify_authoring/src/declaration.rs` does, and handing what it established back to its uses. */
module Resolution {
  import opened Wrappers
  import opened Orders
  import opened Sorting
  import opened Reporting
  import opened Collecting
  import opened Pieces
  import opened ReportingKey

  /** A declaration to resolve; only its occurrence is looked at here. */
  datatype Input<X> = Input(occurrence: Occurrence, rest: X)

  datatype Facts<Y> = Facts(occurrence: Occurrence, established: Y)

  /** What resolving one declaration does: the records it pushes, then facts, nothing, or a failure. */
  datatype Resolved<Y, E> = Resolved(records: seq<Diagnostic>, facts: Option<Facts<Y>>, failure: Option<E>)

  datatype Failure<E> =
    | ProductionContext
    | TooManyDeclarations
    | TooManyMembers
    | DuplicateOccurrence
    | TooManyDiagnostics
    | Failed(error: E)

  datatype AuthoringResult<Y> = AuthoringResult(checked: bool, declarations: seq<Facts<Y>>, diagnostics: seq<Diagnostic>)

  datatype Limits = Limits(declarations: nat, vocabularyMembers: nat, diagnostics: nat)

  type Resolver<!X, Y, E> = Input<X> -> Resolved<Y, E>

  /** Facts are about the occurrence they were resolved for. */
  ghost predicate Keeps<X(!new), Y, E>(resolver: Resolver<X, Y, E>) {
    forall input :: resolver(input).facts.Some? ==> resolver(input).facts.value.occurrence == input.occurrence
  }

  // ---- what the inputs come to together

  function RecordsOf<X, Y, E>(resolver: Resolver<X, Y, E>): Input<X> -> seq<Diagnostic> {
    input => resolver(input).records
  }

  function FactsOf<X, Y, E>(resolver: Resolver<X, Y, E>): Input<X> -> seq<Facts<Y>> {
    input => if resolver(input).facts.Some? then [resolver(input).facts.value] else []
  }

  function AllRecords<X, Y, E>(resolver: Resolver<X, Y, E>, inputs: seq<Input<X>>): seq<Diagnostic> {
    Flat(RecordsOf(resolver), inputs)
  }

  function AllFacts<X, Y, E>(resolver: Resolver<X, Y, E>, inputs: seq<Input<X>>): seq<Facts<Y>> {
    Flat(FactsOf(resolver), inputs)
  }

  /** None of the inputs fails the invocation. */
  ghost predicate NoneFails<X, Y, E>(resolver: Resolver<X, Y, E>, inputs: seq<Input<X>>) {
    forall input :: input in inputs ==> resolver(input).failure.None?
  }

  ghost predicate NoneBlocked<X, Y, E>(resolver: Resolver<X, Y, E>, inputs: seq<Input<X>>) {
    forall input :: input in inputs ==> resolver(input).facts.Some?
  }

  predicate InputNoLater<X>(a: Input<X>, b: Input<X>) {
    OccursNoLater(a.occurrence, b.occurrence)
  }

  predicate FactsNoLater<Y>(a: Facts<Y>, b: Facts<Y>) {
    OccursNoLater(a.occurrence, b.occurrence)
  }

  /** What an invocation is checked for before any declaration is resolved. */
  ghost predicate Prechecked<X>(inputs: seq<Input<X>>, testContext: bool, vocabulary: nat, limits: Limits) {
    && testContext && |inputs| <= limits.declarations && vocabulary <= limits.vocabularyMembers
    && !Tied(inputs, InputNoLater)
  }

  /** Everything an invocation has to meet to give a result. */
  ghost predicate Resolvable<X, Y, E>(resolver: Resolver<X, Y, E>, inputs: seq<Input<X>>, testContext: bool, vocabulary: nat,
                                      limits: Limits)
  {
    && Prechecked(inputs, testContext, vocabulary, limits)
    && NoneFails(resolver, inputs) && |AllRecords(resolver, inputs)| <= limits.diagnostics
  }

  /** The result holds every fact and every record, in order. */
  ghost predicate Reports<X, Y, E>(resolver: Resolver<X, Y, E>, inputs: seq<Input<X>>, result: AuthoringResult<Y>) {
    && (result.checked <==> NoneBlocked(resolver, inputs))
    && Sorted(result.declarations, FactsNoLater)
    && multiset(result.declarations) == multiset(AllFacts(resolver, inputs))
    && Sorted(result.diagnostics, ReportsNoLater)
    && multiset(result.diagnostics) == multiset(AllRecords(resolver, inputs))
  }

  /** Resolving input `i` stops the invocation: it fails, or by then the records are over their budget. */
  predicate Stops<X, Y, E>(resolver: Resolver<X, Y, E>, inputs: seq<Input<X>>, budget: nat, i: nat)
    requires i < |inputs|
  {
    resolver(inputs[i]).failure.Some? || |AllRecords(resolver, inputs[..i + 1])| > budget
  }

  ghost predicate FirstStop<X, Y, E>(resolver: Resolver<X, Y, E>, inputs: seq<Input<X>>, budget: nat, i: nat) {
    i < |inputs| && Stops(resolver, inputs, budget, i) && forall k :: 0 <= k < i ==> !Stops(resolver, inputs, budget, k)
  }

  /** Why input `i` stops the invocation: its own failure comes before the budget. */
  function StopOf<X, Y, E>(resolver: Resolver<X, Y, E>, inputs: seq<Input<X>>, i: nat): Failure<E>
    requires i < |inputs|
  {
    if resolver(inputs[i]).failure.Some? then Failed(resolver(inputs[i]).failure.value) else TooManyDiagnostics
  }

  /** The failure an invocation gives: that of the first precheck it does not meet, else of the first input that
      stops it. */
  ghost predicate FailsWith<X, Y, E>(resolver: Resolver<X, Y, E>, inputs: seq<Input<X>>, testContext: bool, vocabulary: nat,
                                     limits: Limits, failure: Failure<E>)
  {
    if !testContext then failure == ProductionContext
    else if |inputs| > limits.declarations then failure == TooManyDeclarations
    else if vocabulary > limits.vocabularyMembers then failure == TooManyMembers
    else if Tied(inputs, InputNoLater) then failure == DuplicateOccurrence
    else exists i: nat :: FirstStop(resolver, inputs, limits.diagnostics, i) && failure == StopOf(resolver, inputs, i)
  }

  // ---- the orders

  lemma InputsAreTotal<X(!new)>()
    ensures TotalPreorder<Input<X>>(InputNoLater)
  {
    hide OccursNoLater;
    OccurrencesAreTotal();
  }

  lemma FactsAreTotal<Y(!new)>()
    ensures TotalPreorder<Facts<Y>>(FactsNoLater)
  {
    hide OccursNoLater;
    OccurrencesAreTotal();
  }

  // ---- the invocation

  /** Distinct exactly when no two occurrences, anywhere in the list, compare equal. */
  method RejectDuplicates<X(!new)>(inputs: seq<Input<X>>) returns (distinct: bool)
    ensures distinct <==> !Tied(inputs, InputNoLater)
  {
    InputsAreTotal<X>();
    var order := Sort(inputs, InputNoLater);
    TiedAnyOrder(order, inputs, InputNoLater);
    var tie := FirstTie(order, InputNoLater);
    distinct := tie.None?;
  }

  lemma {:induction false} FlatGrows<T, U>(f: T -> seq<U>, s: seq<T>, n: nat)
    requires n <= |s|
    ensures |Flat(f, s[..n])| <= |Flat(f, s)|
  {
    assert s == s[..n] + s[n..];
    FlatConcat(f, s[..n], s[n..]);
  }

  method PushAll(records: seq<Diagnostic>, sink: Sink<Diagnostic>)
    requires sink.Valid()
    modifies sink
    ensures sink.Valid() && sink.received == old(sink.received) + records
  {
    for i := 0 to |records|
      invariant sink.Valid() && sink.received == old(sink.received) + records[..i]
    {
      sink.Push(records[i]);
    }
    assert records[..|records|] == records;
  }

  /** Resolve a finite set of declarations, each on its own. */
  method Resolve<X(!new), Y(!new), E>(resolver: Resolver<X, Y, E>, inputs: seq<Input<X>>, testContext: bool, vocabulary: nat,
                                      limits: Limits)
    returns (r: Result<AuthoringResult<Y>, Failure<E>>)
    ensures r.Ok? <==> Resolvable(resolver, inputs, testContext, vocabulary, limits)
    ensures r.Ok? ==> Reports(resolver, inputs, r.value)
    ensures r.Err? ==> FailsWith(resolver, inputs, testContext, vocabulary, limits, r.error)
  {
    hide Tied, AllRecords, AllFacts, RecordsOf, FactsOf, Sorted, FactsNoLater, ReportsNoLater;
    if !testContext {
      return Err(ProductionContext);
    }
    if |inputs| > limits.declarations {
      return Err(TooManyDeclarations);
    }
    if vocabulary > limits.vocabularyMembers {
      return Err(TooManyMembers);
    }
    var distinct := RejectDuplicates(inputs);
    if !distinct {
      return Err(DuplicateOccurrence);
    }
    var declarations: seq<Facts<Y>> := [];
    var sink := new Sink<Diagnostic>(limits.diagnostics);
    var blocked := false;
    AllOfNone(resolver, inputs[..0]);
    for i := 0 to |inputs|
      invariant fresh(sink) && sink.Valid() && sink.budget == limits.diagnostics && !sink.exhausted
      invariant sink.received == AllRecords(resolver, inputs[..i]) && declarations == AllFacts(resolver, inputs[..i])
      invariant forall k :: 0 <= k < i ==> resolver(inputs[k]).failure.None?
      invariant forall k :: 0 <= k < i ==> !Stops(resolver, inputs, limits.diagnostics, k)
      invariant blocked <==> exists k :: 0 <= k < i && resolver(inputs[k]).facts.None?
    {
      var resolved := resolver(inputs[i]);
      AllOneMore(resolver, inputs, i);
      RecordsGrow(resolver, inputs, i + 1);
      PushAll(resolved.records, sink);
      if resolved.failure.Some? {
        assert FirstStop(resolver, inputs, limits.diagnostics, i);
        return Err(Failed(resolved.failure.value));
      }
      if resolved.facts.Some? {
        declarations := declarations + [resolved.facts.value];
      } else {
        blocked := true;
      }
      if sink.exhausted {
        assert FirstStop(resolver, inputs, limits.diagnostics, i);
        return Err(TooManyDiagnostics);
      }
    }
    assert inputs[..|inputs|] == inputs;
    FactsAreTotal<Y>();
    ReportingIsTotal();
    var sorted := Sort(declarations, FactsNoLater);
    var diagnostics := Sort(sink.reported, ReportsNoLater);
    r := Ok(AuthoringResult(!blocked, sorted, diagnostics));
  }

  lemma AllOfNone<X, Y, E>(resolver: Resolver<X, Y, E>, none: seq<Input<X>>)
    requires none == []
    ensures AllRecords(resolver, none) == [] && AllFacts(resolver, none) == []
  {
  }

  lemma AllOneMore<X, Y, E>(resolver: Resolver<X, Y, E>, inputs: seq<Input<X>>, n: nat)
    requires n < |inputs|
    ensures AllRecords(resolver, inputs[..n + 1]) == AllRecords(resolver, inputs[..n]) + resolver(inputs[n]).records
    ensures AllFacts(resolver, inputs[..n + 1])
         == AllFacts(resolver, inputs[..n])
            + if resolver(inputs[n]).facts.Some? then [resolver(inputs[n]).facts.value] else []
  {
    hide Flat;
    FlatOneMore(RecordsOf(resolver), inputs, n);
    FlatOneMore(FactsOf(resolver), inputs, n);
  }

  lemma RecordsGrow<X, Y, E>(resolver: Resolver<X, Y, E>, inputs: seq<Input<X>>, n: nat)
    requires n <= |inputs|
    ensures |AllRecords(resolver, inputs[..n])| <= |AllRecords(resolver, inputs)|
  {
    hide Flat;
    FlatGrows(RecordsOf(resolver), inputs, n);
  }

  // ---- the facts come back strictly in order

  lemma {:induction false} FactComesFrom<X(!new), Y, E>(resolver: Resolver<X, Y, E>, inputs: seq<Input<X>>, fact: Facts<Y>)
    requires Keeps(resolver) && fact in AllFacts(resolver, inputs)
    ensures exists i :: 0 <= i < |inputs| && inputs[i].occurrence == fact.occurrence
  {
    if fact in FactsOf(resolver)(inputs[0]) {
      assert inputs[0].occurrence == fact.occurrence;
    } else {
      FactComesFrom(resolver, inputs[1..], fact);
      var i :| 0 <= i < |inputs[1..]| && inputs[1..][i].occurrence == fact.occurrence;
      assert inputs[i + 1].occurrence == fact.occurrence;
    }
  }

  /** Distinct inputs establish distinct facts. */
  lemma {:induction false} FactsDistinct<X(!new), Y(!new), E>(resolver: Resolver<X, Y, E>, inputs: seq<Input<X>>)
    requires Keeps(resolver) && !Tied(inputs, InputNoLater)
    ensures !Tied(AllFacts(resolver, inputs), FactsNoLater)
  {
    if inputs != [] {
      hide OccursNoLater;
      var first, rest := FactsOf(resolver)(inputs[0]), inputs[1..];
      var facts := AllFacts(resolver, inputs);
      RestDistinct(inputs);
      FactsDistinct(resolver, rest);
      assert facts == first + AllFacts(resolver, rest);
      forall i, j | 0 <= i < j < |facts|
        ensures !(FactsNoLater(facts[i], facts[j]) && FactsNoLater(facts[j], facts[i]))
      {
        FactsDiffer(resolver, inputs, i, j);
      }
    }
  }

  lemma RestDistinct<X>(inputs: seq<Input<X>>)
    requires inputs != [] && !Tied(inputs, InputNoLater)
    ensures !Tied(inputs[1..], InputNoLater)
  {
    forall i, j | 0 <= i < j < |inputs[1..]|
      ensures !(InputNoLater(inputs[1..][i], inputs[1..][j]) && InputNoLater(inputs[1..][j], inputs[1..][i]))
    {
      assert inputs[1..][i] == inputs[i + 1] && inputs[1..][j] == inputs[j + 1];
    }
  }

  lemma FactsDiffer<X(!new), Y, E>(resolver: Resolver<X, Y, E>, inputs: seq<Input<X>>, i: nat, j: nat)
    requires inputs != [] && Keeps(resolver) && !Tied(inputs, InputNoLater)
    requires !Tied(AllFacts(resolver, inputs[1..]), FactsNoLater)
    requires i < j < |AllFacts(resolver, inputs)|
    ensures var facts := AllFacts(resolver, inputs);
            !(FactsNoLater(facts[i], facts[j]) && FactsNoLater(facts[j], facts[i]))
  {
    hide OccursNoLater;
    var first, others := FactsOf(resolver)(inputs[0]), AllFacts(resolver, inputs[1..]);
    var facts := AllFacts(resolver, inputs);
    assert facts == first + others;
    if i < |first| {
      assert facts[j] == others[j - |first|] && facts[j] in others;
      FactComesFrom(resolver, inputs[1..], facts[j]);
      var k :| 0 <= k < |inputs[1..]| && inputs[1..][k].occurrence == facts[j].occurrence;
      assert inputs[k + 1] == inputs[1..][k] && facts[i].occurrence == inputs[0].occurrence;
    } else {
      assert facts[i] == others[i - |first|] && facts[j] == others[j - |first|];
    }
  }

  /** The established facts are strictly increasing, which is what makes searching them right. */
  lemma FactsIncrease<X(!new), Y(!new), E>(resolver: Resolver<X, Y, E>, inputs: seq<Input<X>>, result: AuthoringResult<Y>)
    requires Keeps(resolver) && !Tied(inputs, InputNoLater) && Reports(resolver, inputs, result)
    ensures Increasing(result.declarations)
  {
    hide OccurrenceCmp, AllFacts, AllRecords, Tied;
    var facts := result.declarations;
    FactsDistinct(resolver, inputs);
    TiedAnyOrder(facts, AllFacts(resolver, inputs), FactsNoLater);
    forall i, j | 0 <= i < j < |facts|
      ensures OccurrenceCmp(facts[i].occurrence, facts[j].occurrence) == Less
    {
      NotTied(facts, FactsNoLater, i, j);
      OccurrenceLaws(facts[i].occurrence, facts[j].occurrence, facts[i].occurrence);
    }
  }

  lemma NotTied<T>(s: seq<T>, le: (T, T) -> bool, i: nat, j: nat)
    requires !Tied(s, le) && Sorted(s, le) && i < j < |s|
    ensures le(s[i], s[j]) && !le(s[j], s[i])
  {
  }

  ghost predicate Increasing<Y>(facts: seq<Facts<Y>>) {
    forall i, j :: 0 <= i < j < |facts| ==> OccurrenceCmp(facts[i].occurrence, facts[j].occurrence) == Less
  }

  /** Two inputs claim one position: the same snapshot, whatever length it declares, the same range and the same role. */
  ghost predicate OnePosition<X>(inputs: seq<Input<X>>) {
    exists i, j :: 0 <= i < j < |inputs| && SamePosition(inputs[i].occurrence, inputs[j].occurrence)
  }

  predicate SamePosition(a: Occurrence, b: Occurrence) {
    && a.source.owner == b.source.owner && a.source.unit == b.source.unit && a.source.revision == b.source.revision
    && a.source.grammar == b.source.grammar && a.source.digest == b.source.digest
    && a.range == b.range && a.role == b.role
  }

  lemma TiesMean<X>(inputs: seq<Input<X>>)
    ensures Tied(inputs, InputNoLater) <==> OnePosition(inputs)
  {
    hide OccurrenceCmp;
    forall i, j | 0 <= i < j < |inputs|
      ensures InputNoLater(inputs[i], inputs[j]) && InputNoLater(inputs[j], inputs[i])
         <==> SamePosition(inputs[i].occurrence, inputs[j].occurrence)
    {
      var a, b := inputs[i].occurrence, inputs[j].occurrence;
      OccurrenceEqual(a, b);
      OccurrenceLaws(a, b, a);
    }
  }

  // ---- what a result holds, input by input

  ghost predicate FactsCut<X, Y, E>(resolver: Resolver<X, Y, E>, inputs: seq<Input<X>>, facts: seq<Facts<Y>>, at: seq<nat>) {
    var n := |inputs|;
    && Cuts(facts, at, n)
    && forall i :: 0 <= i < n ==>
         match resolver(inputs[i]).facts
         case Some(established) => Piece(facts, at, n, i) == [established]
         case None => Piece(facts, at, n, i) == []
  }

  ghost predicate RecordsCut<X, Y, E>(resolver: Resolver<X, Y, E>, inputs: seq<Input<X>>, records: seq<Diagnostic>, at: seq<nat>) {
    var n := |inputs|;
    Cuts(records, at, n) && forall i :: 0 <= i < n ==> Piece(records, at, n, i) == resolver(inputs[i]).records
  }

  ghost predicate FactsInOrder<Y>(facts: seq<Facts<Y>>) {
    forall i, j :: 0 <= i < j < |facts| ==> !Smaller(OccurrenceKey(facts[j].occurrence), OccurrenceKey(facts[i].occurrence))
  }

  ghost predicate RecordsInOrder(records: seq<Diagnostic>) {
    forall i, j :: 0 <= i < j < |records| ==> !Smaller(ReportKey(records[j]), ReportKey(records[i]))
  }

  /** The result is the facts and the records of each input, put in order. */
  lemma ReportsMean<X, Y, E>(resolver: Resolver<X, Y, E>, inputs: seq<Input<X>>, result: AuthoringResult<Y>)
    returns (facts: seq<Facts<Y>>, at: seq<nat>, records: seq<Diagnostic>, cut: seq<nat>)
    requires Reports(resolver, inputs, result)
    ensures FactsInOrder(result.declarations) && multiset(result.declarations) == multiset(facts)
    ensures RecordsInOrder(result.diagnostics) && multiset(result.diagnostics) == multiset(records)
    ensures FactsCut(resolver, inputs, facts, at) && RecordsCut(resolver, inputs, records, cut)
  {
    hide Flat, Cuts, Smaller, OccurrenceKey, ReportKey, OccursNoLater, ReportsNoLater;
    facts, records := AllFacts(resolver, inputs), AllRecords(resolver, inputs);
    at := FlatCuts(FactsOf(resolver), inputs);
    cut := FlatCuts(RecordsOf(resolver), inputs);
    var declarations, diagnostics := result.declarations, result.diagnostics;
    forall i, j | 0 <= i < j < |declarations|
      ensures !Smaller(OccurrenceKey(declarations[j].occurrence), OccurrenceKey(declarations[i].occurrence))
    {
      assert FactsNoLater(declarations[i], declarations[j]);
      OccursByKey(declarations[i].occurrence, declarations[j].occurrence);
    }
    forall i, j | 0 <= i < j < |diagnostics|
      ensures !Smaller(ReportKey(diagnostics[j]), ReportKey(diagnostics[i]))
    {
      assert ReportsNoLater(diagnostics[i], diagnostics[j]);
      ReportsByKey(diagnostics[i], diagnostics[j]);
    }
  }

  // ---- the order inputs are supplied in

  lemma ResolvableAnyOrder<X(!new), Y, E>(resolver: Resolver<X, Y, E>, a: seq<Input<X>>, b: seq<Input<X>>, testContext: bool,
                                          vocabulary: nat, limits: Limits)
    requires multiset(a) == multiset(b) && Resolvable(resolver, a, testContext, vocabulary, limits)
    ensures Resolvable(resolver, b, testContext, vocabulary, limits)
  {
    hide Flat, Tied;
    SameElements(a, b);
    TiedAnyOrder(a, b, InputNoLater);
    FlatAnyOrder(RecordsOf(resolver), a, b);
    SameElements(AllRecords(resolver, a), AllRecords(resolver, b));
  }

  /** Given in another order, declarations that resolve have the same outcome and the same facts, and records that
      agree one by one in the reporting order. */
  lemma OrderIndependent<X(!new), Y(!new), E>(resolver: Resolver<X, Y, E>, a: seq<Input<X>>, b: seq<Input<X>>,
                                              p: AuthoringResult<Y>, q: AuthoringResult<Y>)
    requires Keeps(resolver) && multiset(a) == multiset(b) && !Tied(a, InputNoLater)
    requires Reports(resolver, a, p) && Reports(resolver, b, q)
    ensures p.checked == q.checked && p.declarations == q.declarations
    ensures |p.diagnostics| == |q.diagnostics|
    ensures forall i :: 0 <= i < |p.diagnostics| ==> SameReport(p.diagnostics[i], q.diagnostics[i])
  {
    hide Flat, Tied, ReportingCmp, FactsNoLater, Sorted;
    SameElements(a, b);
    FlatAnyOrder(RecordsOf(resolver), a, b);
    FlatAnyOrder(FactsOf(resolver), a, b);
    FactsDistinct(resolver, a);
    TiedAnyOrder(p.declarations, AllFacts(resolver, a), FactsNoLater);
    FactsAreTotal<Y>();
    SortedUnique(p.declarations, q.declarations, FactsNoLater);
    SortedReportsAgree(p.diagnostics, q.diagnostics);
    forall i | 0 <= i < |p.diagnostics|
      ensures SameReport(p.diagnostics[i], q.diagnostics[i])
    {
      ReportingEqualExactly(p.diagnostics[i], q.diagnostics[i]);
    }
  }

  // ---- which failure it is, and when the order decides it

  lemma OneFailure<X, Y, E>(resolver: Resolver<X, Y, E>, inputs: seq<Input<X>>, testContext: bool, vocabulary: nat,
                            limits: Limits, p: Failure<E>, q: Failure<E>)
    requires FailsWith(resolver, inputs, testContext, vocabulary, limits, p)
    requires FailsWith(resolver, inputs, testContext, vocabulary, limits, q)
    ensures p == q
  {
    hide Tied, Stops;
    if Prechecked(inputs, testContext, vocabulary, limits) {
      var i: nat :| FirstStop(resolver, inputs, limits.diagnostics, i) && p == StopOf(resolver, inputs, i);
      var j: nat :| FirstStop(resolver, inputs, limits.diagnostics, j) && q == StopOf(resolver, inputs, j);
      assert i < j || j < i || i == j;
    }
  }

  predicate Fails<X, Y, E>(resolver: Resolver<X, Y, E>, input: Input<X>) {
    resolver(input).failure.Some?
  }

  /** The records of the inputs that do not fail. */
  function QuietRecords<X, Y, E>(resolver: Resolver<X, Y, E>): Input<X> -> seq<Diagnostic> {
    input => if Fails(resolver, input) then [] else resolver(input).records
  }

  /** No two inputs fail with different errors. */
  ghost predicate OneError<X(!new), Y, E>(resolver: Resolver<X, Y, E>, inputs: seq<Input<X>>) {
    forall a, b :: a in inputs && b in inputs && Fails(resolver, a) && Fails(resolver, b) ==>
                     resolver(a).failure == resolver(b).failure
  }

  ghost predicate SomeFails<X, Y, E>(resolver: Resolver<X, Y, E>, inputs: seq<Input<X>>) {
    exists input :: input in inputs && Fails(resolver, input)
  }

  /** All failing inputs carry one error, and if any fails, the records of the others fit. */
  ghost predicate Decided<X(!new), Y, E>(resolver: Resolver<X, Y, E>, inputs: seq<Input<X>>, limits: Limits) {
    && OneError(resolver, inputs)
    && (SomeFails(resolver, inputs) ==> |Flat(QuietRecords(resolver), inputs)| <= limits.diagnostics)
  }

  /** Whatever order the inputs are supplied in, it is the same failure. */
  ghost predicate FailsAlike<X(!new), Y, E(!new)>(resolver: Resolver<X, Y, E>, inputs: seq<Input<X>>, testContext: bool,
                                                  vocabulary: nat, limits: Limits)
  {
    forall a, b, p, q ::
      (&& multiset(a) == multiset(inputs) && multiset(b) == multiset(inputs)
       && FailsWith(resolver, a, testContext, vocabulary, limits, p)
       && FailsWith(resolver, b, testContext, vocabulary, limits, q)) ==> p == q
  }

  /** Up to the first input that fails, nothing but quiet records were made. */
  lemma {:induction false} QuietSoFar<X, Y, E>(resolver: Resolver<X, Y, E>, inputs: seq<Input<X>>, n: nat)
    requires n <= |inputs| && forall k :: 0 <= k < n ==> !Fails(resolver, inputs[k])
    ensures AllRecords(resolver, inputs[..n]) == Flat(QuietRecords(resolver), inputs[..n])
    ensures |Flat(QuietRecords(resolver), inputs[..n])| <= |Flat(QuietRecords(resolver), inputs)|
  {
    hide Flat;
    FlatGrows(QuietRecords(resolver), inputs, n);
    if n == 0 {
      AllOfNone(resolver, inputs[..0]);
      FlatOfNone(QuietRecords(resolver), inputs[..0]);
    } else {
      QuietSoFar(resolver, inputs, n - 1);
      FlatOneMore(RecordsOf(resolver), inputs, n - 1);
      FlatOneMore(QuietRecords(resolver), inputs, n - 1);
    }
  }

  lemma FlatOfNone<T, U>(f: T -> seq<U>, none: seq<T>)
    requires none == []
    ensures Flat(f, none) == []
  {
  }

  /** When it is decided, an order that fails gives the one error there is, or runs over when there is none. */
  lemma DecidedFailure<X(!new), Y, E>(resolver: Resolver<X, Y, E>, inputs: seq<Input<X>>, limits: Limits, i: nat)
    requires Decided(resolver, inputs, limits) && FirstStop(resolver, inputs, limits.diagnostics, i)
    ensures SomeFails(resolver, inputs) ==> Fails(resolver, inputs[i])
  {
    hide Flat, AllRecords;
    forall k | 0 <= k < i
      ensures !Fails(resolver, inputs[k])
    {
      assert !Stops(resolver, inputs, limits.diagnostics, k);
    }
    if !Fails(resolver, inputs[i]) {
      QuietSoFar(resolver, inputs, i + 1);
    }
  }

  lemma DecidedAnyOrder<X(!new), Y, E>(resolver: Resolver<X, Y, E>, a: seq<Input<X>>, b: seq<Input<X>>, limits: Limits)
    requires multiset(a) == multiset(b) && Decided(resolver, a, limits)
    ensures Decided(resolver, b, limits)
  {
    hide Flat, Fails;
    SameElements(a, b);
    FlatAnyOrder(QuietRecords(resolver), a, b);
    SameElements(Flat(QuietRecords(resolver), a), Flat(QuietRecords(resolver), b));
  }

  lemma PrecheckedAnyOrder<X(!new)>(a: seq<Input<X>>, b: seq<Input<X>>, testContext: bool, vocabulary: nat, limits: Limits)
    requires multiset(a) == multiset(b) && Prechecked(a, testContext, vocabulary, limits)
    ensures Prechecked(b, testContext, vocabulary, limits)
  {
    hide Tied;
    SameElements(a, b);
    TiedAnyOrder(a, b, InputNoLater);
  }

  lemma DecidedAlike<X(!new), Y, E(!new)>(resolver: Resolver<X, Y, E>, inputs: seq<Input<X>>, testContext: bool,
                                          vocabulary: nat, limits: Limits, a: seq<Input<X>>, b: seq<Input<X>>,
                                          p: Failure<E>, q: Failure<E>)
    requires Prechecked(inputs, testContext, vocabulary, limits) && Decided(resolver, inputs, limits)
    requires multiset(a) == multiset(inputs) && multiset(b) == multiset(inputs)
    requires FailsWith(resolver, a, testContext, vocabulary, limits, p)
    requires FailsWith(resolver, b, testContext, vocabulary, limits, q)
    ensures p == q
  {
    hide Tied, Stops, AllRecords, Flat, Fails;
    PrecheckedAnyOrder(inputs, a, testContext, vocabulary, limits);
    PrecheckedAnyOrder(inputs, b, testContext, vocabulary, limits);
    DecidedAnyOrder(resolver, inputs, a, limits);
    DecidedAnyOrder(resolver, inputs, b, limits);
    SameElements(a, inputs);
    SameElements(b, inputs);
    var i: nat :| FirstStop(resolver, a, limits.diagnostics, i) && p == StopOf(resolver, a, i);
    var j: nat :| FirstStop(resolver, b, limits.diagnostics, j) && q == StopOf(resolver, b, j);
    DecidedFailure(resolver, a, limits, i);
    DecidedFailure(resolver, b, limits, j);
    assert a[i] in inputs && b[j] in inputs;
    FailureOf(resolver, a, i);
    FailureOf(resolver, b, j);
  }

  lemma FailureOf<X, Y, E>(resolver: Resolver<X, Y, E>, inputs: seq<Input<X>>, i: nat)
    requires i < |inputs|
    ensures Fails(resolver, inputs[i]) ==> resolver(inputs[i]).failure == Some(StopOf(resolver, inputs, i).error)
    ensures !Fails(resolver, inputs[i]) ==> StopOf(resolver, inputs, i) == TooManyDiagnostics
    ensures Fails(resolver, inputs[i]) <==> StopOf(resolver, inputs, i).Failed?
  {
  }

  /** The same inputs with one of them first. */
  lemma MoveFirst<T>(s: seq<T>, x: T) returns (moved: seq<T>)
    requires x in s
    ensures multiset(moved) == multiset(s) && moved != [] && moved[0] == x
  {
    var k :| 0 <= k < |s| && s[k] == x;
    Without(s, k);
    moved := [x] + (s[..k] + s[k + 1..]);
  }

  /** An input that fails, supplied first, decides the failure. */
  lemma FirstDecides<X(!new), Y, E>(resolver: Resolver<X, Y, E>, inputs: seq<Input<X>>, testContext: bool, vocabulary: nat,
                                    limits: Limits, input: Input<X>)
    returns (order: seq<Input<X>>)
    requires Prechecked(inputs, testContext, vocabulary, limits) && input in inputs && Fails(resolver, input)
    ensures multiset(order) == multiset(inputs)
    ensures FailsWith(resolver, order, testContext, vocabulary, limits, Failed(resolver(input).failure.value))
  {
    hide Tied, AllRecords;
    order := MoveFirst(inputs, input);
    PrecheckedAnyOrder(inputs, order, testContext, vocabulary, limits);
    assert FirstStop(resolver, order, limits.diagnostics, 0);
  }

  /** The inputs that do not fail, in order, before those that do. */
  lemma {:induction false} QuietFirst<X, Y, E>(resolver: Resolver<X, Y, E>, inputs: seq<Input<X>>)
    returns (order: seq<Input<X>>, n: nat)
    ensures multiset(order) == multiset(inputs) && n <= |order|
    ensures forall k :: 0 <= k < n ==> !Fails(resolver, order[k])
    ensures forall k :: n <= k < |order| ==> Fails(resolver, order[k])
  {
    hide Fails;
    if inputs == [] {
      order, n := [], 0;
    } else {
      var rest, m := QuietFirst(resolver, inputs[1..]);
      assert inputs == [inputs[0]] + inputs[1..];
      if Fails(resolver, inputs[0]) {
        order, n := rest + [inputs[0]], m;
      } else {
        order, n := [inputs[0]] + rest, m + 1;
      }
    }
  }

  lemma {:induction false} NoQuietRecords<X, Y, E>(resolver: Resolver<X, Y, E>, inputs: seq<Input<X>>)
    requires forall k :: 0 <= k < |inputs| ==> Fails(resolver, inputs[k])
    ensures Flat(QuietRecords(resolver), inputs) == []
  {
    if inputs != [] {
      NoQuietRecords(resolver, inputs[1..]);
    }
  }

  /** When the quiet records alone are too many, supplying those inputs first runs over. */
  lemma QuietRunsOver<X(!new), Y, E>(resolver: Resolver<X, Y, E>, inputs: seq<Input<X>>, testContext: bool, vocabulary: nat,
                                     limits: Limits)
    returns (order: seq<Input<X>>)
    requires Prechecked(inputs, testContext, vocabulary, limits)
    requires |Flat(QuietRecords(resolver), inputs)| > limits.diagnostics
    ensures multiset(order) == multiset(inputs)
    ensures FailsWith(resolver, order, testContext, vocabulary, limits, TooManyDiagnostics)
  {
    hide Tied, Flat, AllRecords, Fails, Stops;
    var n;
    order, n := QuietFirst(resolver, inputs);
    PrecheckedAnyOrder(inputs, order, testContext, vocabulary, limits);
    FlatAnyOrder(QuietRecords(resolver), inputs, order);
    SameElements(Flat(QuietRecords(resolver), inputs), Flat(QuietRecords(resolver), order));
    NoQuietRecords(resolver, order[n..]);
    FlatConcat(QuietRecords(resolver), order[..n], order[n..]);
    assert order == order[..n] + order[n..];
    QuietSoFar(resolver, order, n);
    AllOfNone(resolver, order[..0]);
    var i := StopsBy(resolver, order, limits.diagnostics, n);
    FailureOf(resolver, order, i);
  }

  /** The first place where the records so far are too many. */
  lemma {:induction false} StopsBy<X, Y, E>(resolver: Resolver<X, Y, E>, inputs: seq<Input<X>>, budget: nat, n: nat)
    returns (i: nat)
    requires n <= |inputs| && (forall k :: 0 <= k < n ==> !Fails(resolver, inputs[k]))
    requires |AllRecords(resolver, inputs[..n])| > budget
    ensures i < n && FirstStop(resolver, inputs, budget, i)
  {
    hide AllRecords;
    AllOfNone(resolver, inputs[..0]);
    if j: nat :| j < n - 1 && Stops(resolver, inputs, budget, j) {
      i := StopsBy(resolver, inputs, budget, j + 1);
    } else {
      i := n - 1;
    }
  }

  /** Once the prechecks are met, the failure does not depend on the order exactly when every input that fails
      carries the same error and, if any does, the records of the rest fit the budget. */
  lemma FailsAlikeExactly<X(!new), Y, E(!new)>(resolver: Resolver<X, Y, E>, inputs: seq<Input<X>>, testContext: bool,
                                               vocabulary: nat, limits: Limits)
    requires Prechecked(inputs, testContext, vocabulary, limits)
    ensures FailsAlike(resolver, inputs, testContext, vocabulary, limits) <==> Decided(resolver, inputs, limits)
  {
    hide Prechecked, FailsWith, Flat;
    if Decided(resolver, inputs, limits) {
      forall a, b, p, q |
        && multiset(a) == multiset(inputs) && multiset(b) == multiset(inputs)
        && FailsWith(resolver, a, testContext, vocabulary, limits, p)
        && FailsWith(resolver, b, testContext, vocabulary, limits, q)
        ensures p == q
      {
        DecidedAlike(resolver, inputs, testContext, vocabulary, limits, a, b, p, q);
      }
    } else if !OneError(resolver, inputs) {
      var x, y :| x in inputs && y in inputs && Fails(resolver, x) && Fails(resolver, y)
                  && resolver(x).failure != resolver(y).failure;
      var a := FirstDecides(resolver, inputs, testContext, vocabulary, limits, x);
      var b := FirstDecides(resolver, inputs, testContext, vocabulary, limits, y);
      assert FailsWith(resolver, a, testContext, vocabulary, limits, Failed(resolver(x).failure.value));
      assert FailsWith(resolver, b, testContext, vocabulary, limits, Failed(resolver(y).failure.value));
    } else {
      var x :| x in inputs && Fails(resolver, x);
      var a := FirstDecides(resolver, inputs, testContext, vocabulary, limits, x);
      var b := QuietRunsOver(resolver, inputs, testContext, vocabulary, limits);
    }
  }

  /** Two declarations of one unit, one after the other, each of which fails in its own way. */
  lemma OrderDecides()
    ensures var source := Snapshot(Owner(0, []), [], [], Versioned([], []), 2, []);
            var a := Input(Occurrence(source, Range(0, 1), []), 0);
            var b := Input(Occurrence(source, Range(1, 2), []), 1);
            var resolver: Resolver<nat, nat, nat> := (input: Input<nat>) => Resolved([], None, Some(input.rest));
            && multiset([a, b]) == multiset([b, a])
            && FailsWith(resolver, [a, b], true, 0, Limits(2, 0, 0), Failed(0))
            && FailsWith(resolver, [b, a], true, 0, Limits(2, 0, 0), Failed(1))
  {
    var source := Snapshot(Owner(0, []), [], [], Versioned([], []), 2, []);
    var a := Input(Occurrence(source, Range(0, 1), []), 0);
    var b := Input(Occurrence(source, Range(1, 2), []), 1);
    var resolver: Resolver<nat, nat, nat> := (input: Input<nat>) => Resolved([], None, Some(input.rest));
    assert multiset([a, b]) == multiset{a, b} == multiset([b, a]);
    OccurrenceEqual(a.occurrence, b.occurrence);
    OccurrenceEqual(b.occurrence, a.occurrence);
    OccurrenceLaws(a.occurrence, b.occurrence, a.occurrence);
    hide OccurrenceCmp, AllRecords;
    assert !Tied([a, b], InputNoLater) && !Tied([b, a], InputNoLater);
    assert FirstStop(resolver, [a, b], 0, 0) && FirstStop(resolver, [b, a], 0, 0);
  }

  // ---- handing over

  /** The facts established for one occurrence.  The search compares everything but the declared byte length,
      which is checked afterwards. */
  method FactsFor<Y>(established: seq<Facts<Y>>, occurrence: Occurrence) returns (found: Option<Facts<Y>>)
    requires Increasing(established)
    ensures found.Some? ==> found.value in established && found.value.occurrence == occurrence
    ensures forall facts :: facts in established && facts.occurrence == occurrence ==> found == Some(facts)
  {
    hide OccurrenceCmp;
    Searchable(established, occurrence);
    var at := BinarySearch(established, (facts: Facts<Y>) => OccurrenceCmp(facts.occurrence, occurrence) == Less,
                           (facts: Facts<Y>) => OccurrenceCmp(facts.occurrence, occurrence) == Greater);
    found := if at.Some? && established[at.value].occurrence == occurrence then Some(established[at.value]) else None;
    forall facts | facts in established && facts.occurrence == occurrence
      ensures found == Some(facts)
    {
      var k :| 0 <= k < |established| && established[k] == facts;
      SelfEqual(occurrence);
      if at.Some? {
        OnlyEqual(established, occurrence, k, at.value);
      }
    }
  }

  lemma SelfEqual(occurrence: Occurrence)
    ensures OccurrenceCmp(occurrence, occurrence) == Equal
  {
    OccurrenceLaws(occurrence, occurrence, occurrence);
  }

  lemma OnlyEqual<Y>(established: seq<Facts<Y>>, occurrence: Occurrence, i: nat, j: nat)
    requires Increasing(established) && i < |established| && j < |established|
    requires OccurrenceCmp(established[i].occurrence, occurrence) == Equal
    requires OccurrenceCmp(established[j].occurrence, occurrence) == Equal
    ensures i == j
  {
    hide OccurrenceCmp;
    var a, b := established[i].occurrence, established[j].occurrence;
    OccurrenceLaws(a, occurrence, b);
    OccurrenceLaws(occurrence, b, a);
    OccurrenceLaws(occurrence, a, b);
    OccurrenceLaws(a, b, a);
  }

  lemma Searchable<Y>(established: seq<Facts<Y>>, occurrence: Occurrence)
    requires Increasing(established)
    ensures forall i, j :: 0 <= i < j < |established| && OccurrenceCmp(established[j].occurrence, occurrence) == Less ==>
                             OccurrenceCmp(established[i].occurrence, occurrence) == Less
    ensures forall i, j :: 0 <= i < j < |established| && OccurrenceCmp(established[i].occurrence, occurrence) == Greater ==>
                             OccurrenceCmp(established[j].occurrence, occurrence) == Greater
  {
    hide OccurrenceCmp;
    forall i, j | 0 <= i < j < |established|
      ensures OccurrenceCmp(established[j].occurrence, occurrence) == Less ==>
                OccurrenceCmp(established[i].occurrence, occurrence) == Less
      ensures OccurrenceCmp(established[i].occurrence, occurrence) == Greater ==>
                OccurrenceCmp(established[j].occurrence, occurrence) == Greater
    {
      var a, b := established[i].occurrence, established[j].occurrence;
      OccurrenceLaws(a, b, occurrence);
      OccurrenceLaws(b, occurrence, a);
      OccurrenceLaws(occurrence, a, b);
      OccurrenceLaws(a, occurrence, b);
    }
  }
}
