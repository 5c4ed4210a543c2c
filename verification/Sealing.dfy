/** What an assembled inventory is sealed from, and why an invocation is refused one, said of the analyses
    themselves. */
module Sealing {
  import opened Wrappers
  import opened Orders
  import opened Sorting
  import opened Pieces
  import opened Reporting
  import opened Admission
  import opened Assembly
  import opened Verdicts

  // ---- what is sealed

  ghost predicate DeclarationsCut<F>(whole: seq<F>, read: seq<Analysis<F>>, at: seq<nat>) {
    Cuts(whole, at, |read|) && forall i :: 0 <= i < |read| ==> Piece(whole, at, |read|, i) == read[i].declarations
  }

  ghost predicate ReferencesCut<F>(whole: seq<F>, read: seq<Analysis<F>>, at: seq<nat>) {
    Cuts(whole, at, |read|) && forall i :: 0 <= i < |read| ==> Piece(whole, at, |read|, i) == read[i].references
  }

  ghost predicate ExclusionsCut<F>(whole: seq<F>, read: seq<Analysis<F>>, at: seq<nat>) {
    Cuts(whole, at, |read|) && forall i :: 0 <= i < |read| ==> Piece(whole, at, |read|, i) == read[i].exclusions
  }

  /** Unit by unit: its own source and outcome, and its own facts in their own order. */
  ghost predicate Gathers<F>(contents: Contents<F>, read: seq<Analysis<F>>) {
    && |contents.units| == |read|
    && (forall i :: 0 <= i < |read| ==> contents.units[i].source == read[i].source && contents.units[i].outcome == read[i].outcome)
    && (exists at :: DeclarationsCut(contents.declarations, read, at))
    && (exists at :: ReferencesCut(contents.references, read, at))
    && (exists at :: ExclusionsCut(contents.exclusions, read, at))
  }

  /** The facts are those of all the analyses, none lost and none added. */
  ghost predicate KeepsAll<F>(contents: Contents<F>, analyses: seq<Analysis<F>>) {
    var n := |analyses|;
    && multiset(contents.declarations) == Together(seq(n, i requires 0 <= i < n => analyses[i].declarations))
    && multiset(contents.references) == Together(seq(n, i requires 0 <= i < n => analyses[i].references))
    && multiset(contents.exclusions) == Together(seq(n, i requires 0 <= i < n => analyses[i].exclusions))
  }

  /** The analyses in strict order of their units. */
  ghost predicate InUnitOrder<F>(read: seq<Analysis<F>>, analyses: seq<Analysis<F>>) {
    && multiset(read) == multiset(analyses)
    && forall i, j :: 0 <= i < j < |read| ==> Smaller(read[i].source.unit, read[j].source.unit)
  }

  lemma ContentsGather<F>(read: seq<Analysis<F>>)
    ensures Gathers(ContentsOf(read), read)
  {
    hide Flat, Cuts;
    var contents := ContentsOf(read);
    var units := FlatCuts(ResultOf, read);
    var declarations := FlatCuts(DeclarationsOf, read);
    assert DeclarationsCut(contents.declarations, read, declarations);
    var references := FlatCuts(ReferencesOf, read);
    assert ReferencesCut(contents.references, read, references);
    var exclusions := FlatCuts(ExclusionsOf, read);
    assert ExclusionsCut(contents.exclusions, read, exclusions);
    UnitsGather(read);
  }

  lemma {:induction false} UnitsGather<F>(read: seq<Analysis<F>>)
    ensures var units := Flat(ResultOf, read);
            && |units| == |read|
            && forall i :: 0 <= i < |read| ==> units[i].source == read[i].source && units[i].outcome == read[i].outcome
  {
    if read != [] {
      var n := |read| - 1;
      UnitsGather(read[..n]);
      FlatOneMore(ResultOf, read, n);
      assert read[..n + 1] == read;
    }
  }

  lemma ContentsHold<F>(read: seq<Analysis<F>>, analyses: seq<Analysis<F>>)
    requires multiset(read) == multiset(analyses)
    ensures KeepsAll(ContentsOf(read), analyses)
  {
    hide Flat, Together;
    var n := |analyses|;
    FlatAnyOrder(DeclarationsOf, read, analyses);
    FlatTogether(DeclarationsOf, analyses, seq(n, i requires 0 <= i < n => analyses[i].declarations));
    FlatAnyOrder(ReferencesOf, read, analyses);
    FlatTogether(ReferencesOf, analyses, seq(n, i requires 0 <= i < n => analyses[i].references));
    FlatAnyOrder(ExclusionsOf, read, analyses);
    FlatTogether(ExclusionsOf, analyses, seq(n, i requires 0 <= i < n => analyses[i].exclusions));
  }

  lemma SortedInOrder<F(!new)>(read: seq<Analysis<F>>, analyses: seq<Analysis<F>>)
    requires Sorts(analyses, AnalysisNoLater, Ok(read))
    ensures InUnitOrder(read, analyses)
  {
    hide CompareBytes, Tied, Sorted;
    AnalysesAreTotal<F>();
    TiedAnyOrder(analyses, read, AnalysisNoLater);
    assert forall a: Analysis<F>, b: Analysis<F> ::
        AnalysisNoLater(a, b) == (CompareBytes(UnitOfAnalysis(a), UnitOfAnalysis(b)) != Greater);
    SortedAscend(read, AnalysisNoLater, UnitOfAnalysis);
    forall i, j | 0 <= i < j < |read|
      ensures Smaller(read[i].source.unit, read[j].source.unit)
    {
      assert CompareBytes(UnitOfAnalysis(read[i]), UnitOfAnalysis(read[j])) == Less;
      BytesMean(read[i].source.unit, read[j].source.unit);
    }
  }

  /** A success seals every fact of every analysis, unit by unit in unit order, and reports every record. */
  lemma SealedExactly<F(!new), A>(scope: Scope<F, A>, membership: seq<Member>, analyses: seq<Analysis<F>>, assembled: Assembled<A>)
    returns (read: seq<Analysis<F>>, contents: Contents<F>)
    requires Assembles(scope, membership, analyses, Ok(assembled))
    ensures scope.seal(contents) == Ok(assembled.artifact)
    ensures InUnitOrder(read, analyses) && Gathers(contents, read) && KeepsAll(contents, analyses)
    ensures assembled.complete == scope.complete
    ensures var n := |analyses|;
            multiset(assembled.diagnostics) == Together(seq(n, i requires 0 <= i < n => analyses[i].diagnostics))
  {
    hide Sorts, Gathers, KeepsAll, InUnitOrder, Together, Flat, Stable, ContentsOf, Foreign, Missing;
    var m :| Sorts(membership, MemberNoLater, m) && Assembly.AfterMembers(scope, m, analyses, Ok(assembled));
    var u :| Sorts(analyses, AnalysisNoLater, u) && AfterAnalyses(scope, m.value, u, Ok(assembled));
    read := u.value;
    contents := ContentsOf(read);
    SortedInOrder(read, analyses);
    OrderKeeps(read, analyses);
    ContentsGather(read);
    ContentsHold(read, analyses);
    Assembly.CheckedExactly(scope, membership, analyses, assembled);
    var n := |analyses|;
    FlatTogether(DiagnosticsOf, analyses, seq(n, i requires 0 <= i < n => analyses[i].diagnostics));
  }

  lemma OrderKeeps<F>(read: seq<Analysis<F>>, analyses: seq<Analysis<F>>)
    requires InUnitOrder(read, analyses)
    ensures multiset(read) == multiset(analyses)
  {
  }

  // ---- what each failure means

  /** The analysis is this owner's, was read under this basis and profile, and is of a member at its revision. */
  ghost predicate Sound<F, A>(scope: Scope<F, A>, membership: seq<Member>, analysis: Analysis<F>) {
    && analysis.source.owner == scope.owner && analysis.basis == scope.basis && analysis.profile == scope.profile
    && Member(analysis.source.unit, analysis.source.revision) in membership
  }

  /** Of the analyses in unit order, `k` is the first that is not sound, and it is of `u`. */
  ghost predicate FirstBad<F, A>(scope: Scope<F, A>, membership: seq<Member>, analyses: seq<Analysis<F>>,
                                 read: seq<Analysis<F>>, k: nat, u: Bytes)
  {
    && InUnitOrder(read, analyses) && k < |read| && read[k].source.unit == u
    && forall i :: 0 <= i < k ==> Sound(scope, membership, read[i])
  }

  ghost predicate AllSound<F, A>(scope: Scope<F, A>, membership: seq<Member>, analyses: seq<Analysis<F>>) {
    forall i :: 0 <= i < |analyses| ==> Sound(scope, membership, analyses[i])
  }

  /** Every check of single units is passed; when the scope is complete nothing is unread. */
  ghost predicate Ready<F, A>(scope: Scope<F, A>, membership: seq<Member>, analyses: seq<Analysis<F>>) {
    && AllSound(scope, membership, analyses)
    && (scope.complete ==> forall v :: !Unread(membership, analyses, v))
  }

  /** No analysis was supplied for the member named `u`. */
  ghost predicate Unread<F>(membership: seq<Member>, analyses: seq<Analysis<F>>, u: Bytes) {
    && (exists i :: 0 <= i < |membership| && membership[i].unit == u)
    && forall i :: 0 <= i < |analyses| ==> analyses[i].source.unit != u
  }

  ghost predicate AnalysisTwice<F>(analyses: seq<Analysis<F>>, u: Bytes) {
    exists i, j :: 0 <= i < j < |analyses| && analyses[i].source.unit == analyses[j].source.unit == u
  }

  ghost function AllDeclarations<F>(analyses: seq<Analysis<F>>): multiset<F> {
    Together(seq(|analyses|, i requires 0 <= i < |analyses| => analyses[i].declarations))
  }

  ghost function AllRecords<F>(analyses: seq<Analysis<F>>): multiset<Diagnostic> {
    Together(seq(|analyses|, i requires 0 <= i < |analyses| => analyses[i].diagnostics))
  }

  /** What each failure means, where the analyses come in order as `read`, `k` is the one that failed, and `contents`
      is what could not be sealed. */
  ghost predicate Means<F, A>(scope: Scope<F, A>, membership: seq<Member>, analyses: seq<Analysis<F>>, failure: AssemblyFailure,
                              read: seq<Analysis<F>>, k: nat, contents: Contents<F>)
  {
    match failure
    case InScope(Refused(code)) => scope.refused == Some(code)
    case InScope(TooManyUnits) => scope.refused.None? && (|membership| > scope.units || |analyses| > scope.units)
    case InScope(DuplicateMember(u)) =>
      MemberTwice(membership, u) && forall v :: MemberTwice(membership, v) ==> !Smaller(v, u)
    case InScope(DuplicateUnit(u)) => AnalysisTwice(analyses, u) && forall v :: AnalysisTwice(analyses, v) ==> !Smaller(v, u)
    case InScope(ForeignOwner(u)) => FirstBad(scope, membership, analyses, read, k, u) && read[k].source.owner != scope.owner
    case InScope(ForeignAnalysis(u)) =>
      && FirstBad(scope, membership, analyses, read, k, u) && read[k].source.owner == scope.owner
      && (read[k].basis != scope.basis || read[k].profile != scope.profile)
    case InScope(NotAMember(u)) =>
      && FirstBad(scope, membership, analyses, read, k, u) && read[k].source.owner == scope.owner
      && read[k].basis == scope.basis && read[k].profile == scope.profile
      && Member(u, read[k].source.revision) !in membership
    case InScope(MissingMember(u)) =>
      && scope.complete && AllSound(scope, membership, analyses)
      && Unread(membership, analyses, u) && forall v :: Unread(membership, analyses, v) ==> !Smaller(v, u)
    case InScope(_) => false
    case TooManyDeclarations => Ready(scope, membership, analyses) && |AllDeclarations(analyses)| > scope.declarations
    case TooManyDiagnostics =>
      && Ready(scope, membership, analyses) && |AllDeclarations(analyses)| <= scope.declarations
      && |AllRecords(analyses)| > scope.diagnostics
    case InvalidScope => Ready(scope, membership, analyses) && WithinLimits(scope, analyses) && !scope.named
    case NotSealed(code) =>
      && Ready(scope, membership, analyses) && WithinLimits(scope, analyses) && scope.named
      && InUnitOrder(read, analyses) && Gathers(contents, read) && scope.seal(contents) == Err(code)
  }

  ghost predicate WithinLimits<F, A>(scope: Scope<F, A>, analyses: seq<Analysis<F>>) {
    |AllDeclarations(analyses)| <= scope.declarations && |AllRecords(analyses)| <= scope.diagnostics
  }

  lemma AnalysesRepeat<F(!new)>(analyses: seq<Analysis<F>>, x: Analysis<F>)
    requires Sorts(analyses, AnalysisNoLater, Err(x))
    ensures AnalysisTwice(analyses, x.source.unit) && forall v :: AnalysisTwice(analyses, v) ==> !Smaller(v, x.source.unit)
  {
    hide CompareBytes, AnalysisNoLater, Smaller;
    AnalysesAreTotal<F>();
    var i, j :| 0 <= i < j < |analyses| && Alike(analyses[i], x, AnalysisNoLater) && Alike(analyses[j], x, AnalysisNoLater);
    assert analyses[i].source.unit == analyses[j].source.unit == x.source.unit;
    forall v | AnalysisTwice(analyses, v)
      ensures !Smaller(v, x.source.unit)
    {
      var k, l :| 0 <= k < l < |analyses| && analyses[k].source.unit == analyses[l].source.unit == v;
      assert Alike(analyses[k], analyses[k], AnalysisNoLater) && Alike(analyses[l], analyses[k], AnalysisNoLater);
      assert Repeated(analyses, analyses[k], AnalysisNoLater);
      AnalysisSmaller(x, analyses[k]);
    }
  }

  lemma AnalysisSmaller<F>(a: Analysis<F>, b: Analysis<F>)
    ensures AnalysisNoLater(a, b) <==> !Smaller(b.source.unit, a.source.unit)
  {
    BytesMean(a.source.unit, b.source.unit);
  }

  lemma {:induction false} ForeignMeans<F, A>(scope: Scope<F, A>, members: seq<Member>, read: seq<Analysis<F>>, i: nat)
    returns (k: nat)
    requires i <= |read| && forall j :: 0 <= j < i ==> Sound(scope, members, read[j])
    ensures var foreign := Foreign(scope, members, read[i..]);
            && (foreign.None? <==> AllSound(scope, members, read))
            && (foreign.Some? ==> k < |read| && (forall j :: 0 <= j < k ==> Sound(scope, members, read[j]))
                                  && foreign == Assembly.Own(scope, members, read[k]))
    decreases |read| - i
  {
    k := i;
    if i < |read| {
      assert read[i..][0] == read[i] && read[i..][1..] == read[i + 1..];
      if Assembly.Own(scope, members, read[i]).None? {
        k := ForeignMeans(scope, members, read, i + 1);
      }
    }
  }

  lemma {:induction false} UnreadMeans<F>(members: seq<Member>, read: seq<Analysis<F>>)
    requires forall i, j :: 0 <= i < j < |members| ==> !Smaller(members[j].unit, members[i].unit)
    ensures var missing := Missing(members, read, UnitOfAnalysis);
            && (missing.None? <==> forall v :: !Unread(members, read, v))
            && (missing.Some? ==> missing.value.MissingMember?
                                  && Unread(members, read, missing.value.unit)
                                  && forall v :: Unread(members, read, v) ==> !Smaller(v, missing.value.unit))
    decreases |members|
  {
    hide Smaller;
    if members != [] {
      var u := members[0].unit;
      UnreadMeans(members[1..], read);
      UnreadFirst(members, read);
      if Missing(members, read, UnitOfAnalysis).Some? {
        var w := Missing(members, read, UnitOfAnalysis).value.unit;
        forall v | Unread(members, read, v)
          ensures !Smaller(v, w)
        {
          if Admission.Holds(read, UnitOfAnalysis, u) {
            assert Unread(members[1..], read, v);
          } else {
            var i :| 0 <= i < |members| && members[i].unit == v;
            SmallerNotSelf(u);
          }
        }
      }
    }
  }

  lemma UnreadFirst<F>(members: seq<Member>, read: seq<Analysis<F>>)
    requires members != []
    ensures forall v :: Unread(members, read, v)
                   <==> || Unread(members[1..], read, v)
                        || (v == members[0].unit && !Admission.Holds(read, UnitOfAnalysis, v))
  {
    forall v
      ensures Unread(members, read, v)
         <==> || Unread(members[1..], read, v)
              || (v == members[0].unit && !Admission.Holds(read, UnitOfAnalysis, v))
    {
      if i :| 0 <= i < |members| && members[i].unit == v && i > 0 {
        assert members[1..][i - 1].unit == v;
      }
      if i :| 0 <= i < |members[1..]| && members[1..][i].unit == v {
        assert members[i + 1].unit == v;
      }
      if i :| 0 <= i < |read| && read[i].source.unit == v {
        assert UnitOfAnalysis(read[i]) == v;
      }
    }
  }

  /** Nothing of this depends on the order of either list. */
  lemma AnyOrder<F, A>(scope: Scope<F, A>, members: seq<Member>, membership: seq<Member>, read: seq<Analysis<F>>,
                       analyses: seq<Analysis<F>>)
    requires multiset(members) == multiset(membership) && multiset(read) == multiset(analyses)
    ensures forall analysis :: Sound(scope, members, analysis) <==> Sound(scope, membership, analysis)
    ensures AllSound(scope, members, read) <==> AllSound(scope, membership, analyses)
    ensures forall v :: Unread(members, read, v) <==> Unread(membership, analyses, v)
    ensures |Flat(DeclarationsOf, read)| == |AllDeclarations(analyses)|
    ensures |Flat(DiagnosticsOf, read)| == |AllRecords(analyses)|
  {
    hide Flat, Together;
    SameElements(members, membership);
    SameElements(read, analyses);
    SameSound(scope, members, membership, read, analyses);
    SameUnread(members, membership, read, analyses);
    FlatAnyOrder(DeclarationsOf, read, analyses);
    FlatTogether(DeclarationsOf, analyses, seq(|analyses|, i requires 0 <= i < |analyses| => analyses[i].declarations));
    assert |multiset(Flat(DeclarationsOf, read))| == |Flat(DeclarationsOf, read)|;
    FlatAnyOrder(DiagnosticsOf, read, analyses);
    FlatTogether(DiagnosticsOf, analyses, seq(|analyses|, i requires 0 <= i < |analyses| => analyses[i].diagnostics));
    assert |multiset(Flat(DiagnosticsOf, read))| == |Flat(DiagnosticsOf, read)|;
  }

  lemma SameSound<F, A>(scope: Scope<F, A>, members: seq<Member>, membership: seq<Member>, read: seq<Analysis<F>>,
                        analyses: seq<Analysis<F>>)
    requires forall member :: member in members <==> member in membership
    requires forall analysis :: analysis in read <==> analysis in analyses
    ensures forall analysis :: Sound(scope, members, analysis) <==> Sound(scope, membership, analysis)
    ensures AllSound(scope, members, read) <==> AllSound(scope, membership, analyses)
  {
    assert forall i :: 0 <= i < |read| ==> read[i] in analyses;
    assert forall i :: 0 <= i < |analyses| ==> analyses[i] in read;
  }

  lemma SameUnread<F>(members: seq<Member>, membership: seq<Member>, read: seq<Analysis<F>>, analyses: seq<Analysis<F>>)
    requires forall member :: member in members <==> member in membership
    requires forall analysis :: analysis in read <==> analysis in analyses
    ensures forall v :: Unread(members, read, v) <==> Unread(membership, analyses, v)
  {
    assert forall i :: 0 <= i < |read| ==> read[i] in analyses;
    assert forall i :: 0 <= i < |analyses| ==> analyses[i] in read;
    assert forall i :: 0 <= i < |members| ==> members[i] in membership;
    assert forall i :: 0 <= i < |membership| ==> membership[i] in members;
  }

  /** Every refusal says what is wrong, of whatever is wrong first in check order and in unit order. */
  lemma RefusalMeans<F(!new), A>(scope: Scope<F, A>, membership: seq<Member>, analyses: seq<Analysis<F>>, failure: AssemblyFailure)
    returns (read: seq<Analysis<F>>, k: nat, contents: Contents<F>)
    requires Assembles(scope, membership, analyses, Err(failure))
    ensures Means(scope, membership, analyses, failure, read, k, contents)
  {
    hide Sorts, Unread, Smaller, InUnitOrder, Foreign, Missing, MemberTwice, AnalysisTwice, Gathers, ContentsOf, Flat, Together,
      Sound, AllSound, Stable;
    read, k, contents := [], 0, Contents([], [], [], []);
    if scope.refused.None? && |membership| <= scope.units && |analyses| <= scope.units {
      var m :| Sorts(membership, MemberNoLater, m) && Assembly.AfterMembers(scope, m, analyses, Err(failure));
      if m.Err? {
        MembersRepeat(membership, m.error);
      } else {
        var u :| Sorts(analyses, AnalysisNoLater, u) && AfterAnalyses(scope, m.value, u, Err(failure));
        if u.Err? {
          AnalysesRepeat(analyses, u.error);
        } else {
          read, contents := u.value, ContentsOf(u.value);
          SortedInOrder(read, analyses);
          k := OutcomeMeans(scope, membership, analyses, m.value, read, failure);
        }
      }
    }
  }

  lemma OutcomeMeans<F(!new), A>(scope: Scope<F, A>, membership: seq<Member>, analyses: seq<Analysis<F>>, members: seq<Member>,
                                 read: seq<Analysis<F>>, failure: AssemblyFailure)
    returns (k: nat)
    requires Sorts(membership, MemberNoLater, Ok(members)) && InUnitOrder(read, analyses)
    requires Outcome(scope, members, read) == Err(failure)
    ensures Means(scope, membership, analyses, failure, read, k, ContentsOf(read))
  {
    hide Unread, Smaller, Foreign, Missing, MemberTwice, AnalysisTwice, Gathers, ContentsOf, Flat, AllSound, AllDeclarations,
      AllRecords, Stable, Tied, Sorted;
    AnyOrder(scope, members, membership, read, analyses);
    SameElements(members, membership);
    MembersInOrder(members);
    ContentsGather(read);
    assert read[0..] == read;
    k := ForeignMeans(scope, members, read, 0);
    UnreadMeans(members, read);
  }

  /** A success met every check. */
  lemma SuccessMeans<F(!new), A>(scope: Scope<F, A>, membership: seq<Member>, analyses: seq<Analysis<F>>, assembled: Assembled<A>)
    requires Assembles(scope, membership, analyses, Ok(assembled))
    ensures scope.refused.None? && |membership| <= scope.units && |analyses| <= scope.units && scope.named
    ensures Ready(scope, membership, analyses) && WithinLimits(scope, analyses)
  {
    hide Sorts, Unread, Smaller, Foreign, Missing, ContentsOf, Flat, AllSound, AllDeclarations, AllRecords, Stable;
    var m :| Sorts(membership, MemberNoLater, m) && Assembly.AfterMembers(scope, m, analyses, Ok(assembled));
    var u :| Sorts(analyses, AnalysisNoLater, u) && AfterAnalyses(scope, m.value, u, Ok(assembled));
    var members, read := m.value, u.value;
    MembersSorted(membership, members);
    SortedInOrder(read, analyses);
    AnyOrder(scope, members, membership, read, analyses);
    MembersInOrder(members);
    assert read[0..] == read;
    var k := ForeignMeans(scope, members, read, 0);
    UnreadMeans(members, read);
  }

  lemma MembersSorted(membership: seq<Member>, members: seq<Member>)
    requires Sorts(membership, MemberNoLater, Ok(members))
    ensures Sorted(members, MemberNoLater) && multiset(members) == multiset(membership)
  {
  }
}
