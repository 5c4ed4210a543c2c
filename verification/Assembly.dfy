/** Merging the analyses of one invocation into a sealed inventory, as `assemble_inventory` of
    `crates/intlify_authoring_js/src/inventory.rs` does. */
module Assembly {
  import opened Wrappers
  import opened Orders
  import opened Sorting
  import opened Reporting
  import opened Admission

  datatype UnitOutcome = Checked | Blocked | Failed

  /** One unit as read, with the basis and profile it was read under.  Facts are opaque here. */
  datatype Analysis<F> = Analysis(
    source: Snapshot, basis: Bytes, profile: Bytes, outcome: UnitOutcome,
    declarations: seq<F>, references: seq<F>, exclusions: seq<F>, diagnostics: seq<Diagnostic>)

  datatype UnitResult = UnitResult(source: Snapshot, outcome: UnitOutcome)

  /** Everything the inventory builder is given, in the order it is given. */
  datatype Contents<F> = Contents(units: seq<UnitResult>, declarations: seq<F>, references: seq<F>, exclusions: seq<F>)

  datatype AssemblyFailure =
    | InScope(failure: Failure)
    | TooManyDeclarations
    | TooManyDiagnostics
    | InvalidScope
    | NotSealed(code: nat)

  /** What an invocation fixes.  Building and sealing the inventory is a function of what the builder is given. */
  datatype Scope<!F, A> = Scope(
    refused: Option<nat>, owner: Owner, basis: Bytes, profile: Bytes, named: bool, complete: bool,
    units: Quantity, declarations: Quantity, diagnostics: Quantity, seal: Contents<F> -> Result<A, nat>)

  /** An inventory and what assembling it established; the inventory states its completeness itself. */
  datatype Assembled<A> = Assembled(checked: bool, complete: bool, artifact: A, diagnostics: seq<Diagnostic>)

  datatype CheckedInventory<A> =
    | Complete(artifact: A)
    | Partial(artifact: A)

  /** Nothing unless the outcome is checked, and then told apart by completeness. */
  function CheckedOf<A>(assembled: Assembled<A>): Option<CheckedInventory<A>> {
    if !assembled.checked then None
    else if assembled.complete then Some(CheckedInventory.Complete(assembled.artifact))
    else Some(CheckedInventory.Partial(assembled.artifact))
  }

  /** The inventory only when it is complete checked input. */
  function CompleteOf<A>(inventory: CheckedInventory<A>): Option<A> {
    if inventory.Complete? then Some(inventory.artifact) else None
  }

  // ---- the checks, in unit order

  predicate AnalysisNoLater<F>(a: Analysis<F>, b: Analysis<F>) {
    CompareBytes(a.source.unit, b.source.unit) != Greater
  }

  function UnitOfAnalysis<F>(analysis: Analysis<F>): Bytes {
    analysis.source.unit
  }

  lemma AnalysesAreTotal<F(!new)>()
    ensures TotalPreorder<Analysis<F>>(AnalysisNoLater)
    ensures forall a: Analysis<F>, b: Analysis<F> :: Alike(a, b, AnalysisNoLater) <==> a.source.unit == b.source.unit
  {
    forall a: Analysis<F>, b: Analysis<F>, c: Analysis<F>
      ensures AnalysisNoLater(a, b) || AnalysisNoLater(b, a)
      ensures AnalysisNoLater(a, b) && AnalysisNoLater(b, c) ==> AnalysisNoLater(a, c)
      ensures Alike(a, b, AnalysisNoLater) <==> a.source.unit == b.source.unit
    {
      BytesLaws(a.source.unit, b.source.unit, c.source.unit);
      BytesEqual(a.source.unit, b.source.unit);
    }
  }

  function Own<F, A>(scope: Scope<F, A>, members: seq<Member>, analysis: Analysis<F>): Option<Failure> {
    var source := analysis.source;
    if source.owner != scope.owner then Some(ForeignOwner(source.unit))
    else if analysis.basis != scope.basis || analysis.profile != scope.profile then Some(ForeignAnalysis(source.unit))
    else if Member(source.unit, source.revision) !in members then Some(NotAMember(source.unit))
    else None
  }

  function Foreign<F, A>(scope: Scope<F, A>, members: seq<Member>, read: seq<Analysis<F>>): Option<Failure>
    decreases |read|
  {
    if read == [] then None
    else if Own(scope, members, read[0]).Some? then Own(scope, members, read[0])
    else Foreign(scope, members, read[1..])
  }

  function DeclarationsOf<F>(analysis: Analysis<F>): seq<F> {
    analysis.declarations
  }

  function ReferencesOf<F>(analysis: Analysis<F>): seq<F> {
    analysis.references
  }

  function ExclusionsOf<F>(analysis: Analysis<F>): seq<F> {
    analysis.exclusions
  }

  function DiagnosticsOf<F>(analysis: Analysis<F>): seq<Diagnostic> {
    analysis.diagnostics
  }

  function ResultOf<F>(analysis: Analysis<F>): seq<UnitResult> {
    [UnitResult(analysis.source, analysis.outcome)]
  }

  function ContentsOf<F>(read: seq<Analysis<F>>): Contents<F> {
    Contents(Flat(ResultOf, read), Flat(DeclarationsOf, read), Flat(ReferencesOf, read), Flat(ExclusionsOf, read))
  }

  predicate AllChecked<F>(read: seq<Analysis<F>>) {
    forall i :: 0 <= i < |read| ==> read[i].outcome == Checked
  }

  /** What the sorted lists come to. */
  function Outcome<F, A>(scope: Scope<F, A>, members: seq<Member>, read: seq<Analysis<F>>): Result<Assembled<A>, AssemblyFailure> {
    if Foreign(scope, members, read).Some? then Err(InScope(Foreign(scope, members, read).value))
    else if scope.complete && Missing(members, read, UnitOfAnalysis).Some? then
      Err(InScope(Missing(members, read, UnitOfAnalysis).value))
    else if |Flat(DeclarationsOf, read)| > scope.declarations then Err(TooManyDeclarations)
    else if |Flat(DiagnosticsOf, read)| > scope.diagnostics then Err(TooManyDiagnostics)
    else if !scope.named then Err(InvalidScope)
    else
      match scope.seal(ContentsOf(read))
      case Err(code) => Err(NotSealed(code))
      case Ok(artifact) =>
        Ok(Assembled(AllChecked(read), scope.complete, artifact, Stable(Flat(DiagnosticsOf, read), ReportsNoLater)))
  }

  ghost predicate Assembles<F(!new), A>(scope: Scope<F, A>, membership: seq<Member>, analyses: seq<Analysis<F>>,
                                        r: Result<Assembled<A>, AssemblyFailure>)
  {
    if scope.refused.Some? then r == Err(InScope(Refused(scope.refused.value)))
    else if |membership| > scope.units || |analyses| > scope.units then r == Err(InScope(TooManyUnits))
    else exists m :: Sorts(membership, MemberNoLater, m) && AfterMembers(scope, m, analyses, r)
  }

  ghost predicate AfterMembers<F(!new), A>(scope: Scope<F, A>, m: Result<seq<Member>, Member>, analyses: seq<Analysis<F>>,
                                           r: Result<Assembled<A>, AssemblyFailure>)
  {
    if m.Err? then r == Err(InScope(DuplicateMember(m.error.unit)))
    else exists u :: Sorts(analyses, AnalysisNoLater, u) && AfterAnalyses(scope, m.value, u, r)
  }

  ghost predicate AfterAnalyses<F, A>(scope: Scope<F, A>, members: seq<Member>, u: Result<seq<Analysis<F>>, Analysis<F>>,
                                      r: Result<Assembled<A>, AssemblyFailure>)
  {
    if u.Err? then r == Err(InScope(DuplicateUnit(u.error.source.unit))) else r == Outcome(scope, members, u.value)
  }

  // ---- the merge

  method SortedAnalyses<F(!new)>(analyses: seq<Analysis<F>>) returns (r: Result<seq<Analysis<F>>, Analysis<F>>)
    ensures Sorts(analyses, AnalysisNoLater, r)
    ensures r.Ok? ==> Ascending(r.value, UnitOfAnalysis)
  {
    hide Tied, Sorted, Repeated;
    AnalysesAreTotal<F>();
    r := SortDistinct(analyses, AnalysisNoLater);
    if r.Ok? {
      TiedAnyOrder(analyses, r.value, AnalysisNoLater);
      SortedAscend(r.value, AnalysisNoLater, UnitOfAnalysis);
    }
  }

  method FindForeign<F, A>(scope: Scope<F, A>, members: seq<Member>, read: seq<Analysis<F>>) returns (failure: Option<Failure>)
    requires Ascending(members, UnitOfMember)
    ensures failure == Foreign(scope, members, read)
  {
    hide Ascending;
    assert read[0..] == read;
    for i := 0 to |read|
      invariant Foreign(scope, members, read) == Foreign(scope, members, read[i..])
    {
      var analysis := read[i];
      assert read[i..][0] == analysis && read[i..][1..] == read[i + 1..];
      if analysis.source.owner != scope.owner {
        return Some(ForeignOwner(analysis.source.unit));
      }
      if analysis.basis != scope.basis || analysis.profile != scope.profile {
        return Some(ForeignAnalysis(analysis.source.unit));
      }
      var member := IsMember(members, analysis.source);
      if !member {
        return Some(NotAMember(analysis.source.unit));
      }
    }
    failure := None;
  }

  /** Copy every unit's facts and records, in unit order. */
  method Merge<F>(read: seq<Analysis<F>>) returns (contents: Contents<F>, diagnostics: seq<Diagnostic>)
    ensures contents == ContentsOf(read)
    ensures diagnostics == Flat(DiagnosticsOf, read)
  {
    hide Flat;
    var units: seq<UnitResult>, declarations: seq<F>, references: seq<F>, exclusions: seq<F> := [], [], [], [];
    diagnostics := [];
    FlatNone<F>();
    for i := 0 to |read|
      invariant units == Flat(ResultOf, read[..i]) && declarations == Flat(DeclarationsOf, read[..i])
      invariant references == Flat(ReferencesOf, read[..i]) && exclusions == Flat(ExclusionsOf, read[..i])
      invariant diagnostics == Flat(DiagnosticsOf, read[..i])
    {
      var analysis := read[i];
      FlatOneMore(ResultOf, read, i);
      FlatOneMore(DeclarationsOf, read, i);
      FlatOneMore(ReferencesOf, read, i);
      FlatOneMore(ExclusionsOf, read, i);
      FlatOneMore(DiagnosticsOf, read, i);
      units := units + [UnitResult(analysis.source, analysis.outcome)];
      declarations := declarations + analysis.declarations;
      references := references + analysis.references;
      exclusions := exclusions + analysis.exclusions;
      diagnostics := diagnostics + analysis.diagnostics;
    }
    assert read[..|read|] == read;
    contents := Contents(units, declarations, references, exclusions);
  }

  lemma FlatNone<F>()
    ensures forall none: seq<Analysis<F>> :: none == [] ==>
              && Flat(ResultOf, none) == [] && Flat(DeclarationsOf, none) == [] && Flat(ReferencesOf, none) == []
              && Flat(ExclusionsOf, none) == [] && Flat(DiagnosticsOf, none) == []
  {
  }

  /** Decided by the membership and the analyses in unit order, whatever order they came in. */
  method AssembleInventory<F(!new), A>(scope: Scope<F, A>, membership: seq<Member>, analyses: seq<Analysis<F>>)
    returns (r: Result<Assembled<A>, AssemblyFailure>)
    ensures Assembles(scope, membership, analyses, r)
  {
    hide Sorts, Ascending, Outcome;
    if scope.refused.Some? {
      return Err(InScope(Refused(scope.refused.value)));
    }
    if |membership| > scope.units || |analyses| > scope.units {
      return Err(InScope(TooManyUnits));
    }
    var m := SortedMembers(membership);
    if m.Err? {
      r := Err(InScope(DuplicateMember(m.error.unit)));
    } else {
      var u := SortedAnalyses(analyses);
      if u.Err? {
        r := Err(InScope(DuplicateUnit(u.error.source.unit)));
      } else {
        r := AssembleRead(scope, m.value, u.value);
      }
      assert AfterAnalyses(scope, m.value, u, r);
    }
    assert AfterMembers(scope, m, analyses, r);
  }

  /** Check the analyses against the scope, then copy what they established. */
  method AssembleRead<F(!new), A>(scope: Scope<F, A>, members: seq<Member>, read: seq<Analysis<F>>)
    returns (r: Result<Assembled<A>, AssemblyFailure>)
    requires Ascending(members, UnitOfMember) && Ascending(read, UnitOfAnalysis)
    ensures r == Outcome(scope, members, read)
  {
    hide Ascending, Foreign, Missing, Flat, ContentsOf, Stable, Sorted;
    var failure := FindForeign(scope, members, read);
    if failure.None? && scope.complete {
      failure := FindMissing(members, read, UnitOfAnalysis);
    }
    if failure.Some? {
      return Err(InScope(failure.value));
    }
    var contents, diagnostics := Merge(read);
    if |Flat(DeclarationsOf, read)| > scope.declarations {
      return Err(TooManyDeclarations);
    }
    if |Flat(DiagnosticsOf, read)| > scope.diagnostics {
      return Err(TooManyDiagnostics);
    }
    if !scope.named {
      return Err(InvalidScope);
    }
    var sealed := scope.seal(contents);
    if sealed.Err? {
      return Err(NotSealed(sealed.error));
    }
    ReportingIsTotal();
    diagnostics := StableSort(diagnostics, ReportsNoLater);
    r := Ok(Assembled(AllChecked(read), scope.complete, sealed.value, diagnostics));
  }

  // ---- what assembly promises

  /** Given in another order, the same membership and the same analyses give the same inventory or the same failure. */
  lemma OrderIndependent<F(!new), A>(scope: Scope<F, A>, m: seq<Member>, n: seq<Member>, u: seq<Analysis<F>>,
                                     v: seq<Analysis<F>>,
                                     p: Result<Assembled<A>, AssemblyFailure>, q: Result<Assembled<A>, AssemblyFailure>)
    requires multiset(m) == multiset(n) && multiset(u) == multiset(v)
    requires Assembles(scope, m, u, p) && Assembles(scope, n, v, q)
    ensures p == q
  {
    hide Sorts, Outcome, MemberNoLater, AnalysisNoLater;
    SameElements(m, n);
    SameElements(u, v);
    if scope.refused.None? && |m| <= scope.units && |u| <= scope.units {
      MembersAreTotal();
      AnalysesAreTotal<F>();
      var a :| Sorts(m, MemberNoLater, a) && AfterMembers(scope, a, u, p);
      var b :| Sorts(n, MemberNoLater, b) && AfterMembers(scope, b, v, q);
      SortsAlike(m, n, MemberNoLater, a, b);
      if a.Ok? {
        var c :| Sorts(u, AnalysisNoLater, c) && AfterAnalyses(scope, a.value, c, p);
        var d :| Sorts(v, AnalysisNoLater, d) && AfterAnalyses(scope, b.value, d, q);
        SortsAlike(u, v, AnalysisNoLater, c, d);
      }
    }
  }

  lemma {:induction false} ForeignExactly<F, A>(scope: Scope<F, A>, members: seq<Member>, read: seq<Analysis<F>>)
    ensures Foreign(scope, members, read) == None <==> forall analysis :: analysis in read ==> Own(scope, members, analysis) == None
    decreases |read|
  {
    hide Own;
    if read != [] {
      ForeignExactly(scope, members, read[1..]);
      assert forall analysis :: analysis in read <==> analysis == read[0] || analysis in read[1..];
    }
  }

  /** What a success was assembled from. */
  lemma AssembledFrom<F(!new), A>(scope: Scope<F, A>, membership: seq<Member>, analyses: seq<Analysis<F>>, assembled: Assembled<A>)
    returns (members: seq<Member>, read: seq<Analysis<F>>)
    requires Assembles(scope, membership, analyses, Ok(assembled))
    ensures multiset(members) == multiset(membership) && multiset(read) == multiset(analyses)
    ensures Outcome(scope, members, read) == Ok(assembled)
    ensures !Tied(membership, MemberNoLater) && !Tied(analyses, AnalysisNoLater)
  {
    hide Outcome, Sorted, Tied, Repeated;
    var m :| Sorts(membership, MemberNoLater, m) && AfterMembers(scope, m, analyses, Ok(assembled));
    var u :| Sorts(analyses, AnalysisNoLater, u) && AfterAnalyses(scope, m.value, u, Ok(assembled));
    members, read := m.value, u.value;
  }

  /** The outcome is checked exactly when every unit is, and the records are every unit's, in reporting order. */
  lemma CheckedExactly<F(!new), A>(scope: Scope<F, A>, membership: seq<Member>, analyses: seq<Analysis<F>>,
                                   assembled: Assembled<A>)
    requires Assembles(scope, membership, analyses, Ok(assembled))
    ensures assembled.checked <==> forall analysis :: analysis in analyses ==> analysis.outcome == Checked
    ensures Sorted(assembled.diagnostics, ReportsNoLater)
    ensures multiset(assembled.diagnostics) == multiset(Flat(DiagnosticsOf, analyses))
    ensures |assembled.diagnostics| <= scope.diagnostics
  {
    hide Flat, Stable, Sorted, ReportsNoLater;
    var members, read := AssembledFrom(scope, membership, analyses, assembled);
    SameElements(read, analyses);
    ReportingIsTotal();
    StableSorts(Flat(DiagnosticsOf, read), ReportsNoLater);
    FlatAnyOrder(DiagnosticsOf, read, analyses);
    SameElements(assembled.diagnostics, Flat(DiagnosticsOf, read));
    assert forall i :: 0 <= i < |read| ==> read[i] in read;
  }

  /** The member was read, at its own revision, for this owner and under this context and profile. */
  ghost predicate WasRead<F, A>(scope: Scope<F, A>, analyses: seq<Analysis<F>>, member: Member) {
    exists i :: 0 <= i < |analyses| && Reads(scope, analyses[i], member)
  }

  predicate Reads<F, A>(scope: Scope<F, A>, analysis: Analysis<F>, member: Member) {
    && analysis.source.unit == member.unit && analysis.source.revision == member.revision
    && analysis.source.owner == scope.owner && analysis.basis == scope.basis && analysis.profile == scope.profile
  }

  lemma MemberRead<F(!new), A>(scope: Scope<F, A>, membership: seq<Member>, members: seq<Member>, read: seq<Analysis<F>>,
                               analyses: seq<Analysis<F>>, member: Member)
    requires multiset(members) == multiset(membership) && multiset(read) == multiset(analyses)
    requires !Tied(membership, MemberNoLater) && member in membership
    requires Foreign(scope, members, read) == None && Missing(members, read, UnitOfAnalysis) == None
    ensures WasRead(scope, analyses, member)
  {
    hide Foreign, Missing, Tied, MemberNoLater;
    SameElements(members, membership);
    SameElements(read, analyses);
    MembersAreTotal();
    ForeignExactly(scope, members, read);
    MissingExactly(members, read, UnitOfAnalysis);
    var i :| 0 <= i < |read| && UnitOfAnalysis(read[i]) == member.unit;
    assert read[i] in read && Own(scope, members, read[i]) == None;
    SameMember(membership, member, Member(read[i].source.unit, read[i].source.revision));
    var k :| 0 <= k < |analyses| && analyses[k] == read[i];
    assert Reads(scope, analyses[k], member);
  }

  lemma SameMember(membership: seq<Member>, a: Member, b: Member)
    requires !Tied(membership, MemberNoLater) && a in membership && b in membership && a.unit == b.unit
    ensures a == b
  {
    hide MemberNoLater;
    MembersAreTotal();
    var i :| 0 <= i < |membership| && membership[i] == a;
    var j :| 0 <= j < |membership| && membership[j] == b;
    assert Alike(a, b, MemberNoLater) && Alike(b, a, MemberNoLater);
    assert i < j || j < i || i == j;
  }

  /** Complete checked input is answered exactly when the scope is complete and every unit was checked; then every
      member was read at its own revision. */
  lemma CompleteExactly<F(!new), A>(scope: Scope<F, A>, membership: seq<Member>, analyses: seq<Analysis<F>>,
                                    assembled: Assembled<A>)
    requires Assembles(scope, membership, analyses, Ok(assembled))
    ensures var inventory := CheckedOf(assembled);
            && (inventory.Some? <==> forall analysis :: analysis in analyses ==> analysis.outcome == Checked)
            && (inventory.Some? && CompleteOf(inventory.value).Some?
                <==> scope.complete && forall analysis :: analysis in analyses ==> analysis.outcome == Checked)
            && (inventory.Some? && CompleteOf(inventory.value).Some? ==>
                  forall member :: member in membership ==> WasRead(scope, analyses, member))
  {
    hide Flat, Stable, Sorted, Foreign, Missing, Tied, ContentsOf, WasRead;
    CheckedExactly(scope, membership, analyses, assembled);
    var members, read := AssembledFrom(scope, membership, analyses, assembled);
    if scope.complete {
      forall member | member in membership
        ensures WasRead(scope, analyses, member)
      {
        MemberRead(scope, membership, members, read, analyses, member);
      }
    }
  }
}
