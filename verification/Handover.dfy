/** Settling every use against the facts that came back: the second half of `hand_over` in
    `crates/intlify_authoring_js/src/analysis.rs`. */
module Handover {
  import opened Wrappers
  import opened Orders
  import opened Sorting
  import opened Reporting
  import opened Collecting
  import opened Resolution
  import opened Pieces
  import opened ReportingKey

  datatype Use<X> = Use(occurrence: Occurrence, declaration: nat, shared: bool, parameters: seq<Binding<X>>)

  datatype Reference<X> = Reference(occurrence: Occurrence, target: Occurrence, parameters: seq<Binding<X>>)

  predicate RefersNoLater<X>(a: Reference<X>, b: Reference<X>) {
    OccursNoLater(a.occurrence, b.occurrence)
  }

  /** The facts about one occurrence, by looking through all of them. */
  ghost function FactsAbout<Y>(established: seq<Facts<Y>>, occurrence: Occurrence): Option<Facts<Y>> {
    if exists facts :: facts in established && facts.occurrence == occurrence then
      var facts :| facts in established && facts.occurrence == occurrence;
      Some(facts)
    else None
  }

  /** What settling the uses needs to know. */
  datatype Settings<!Y> = Settings(established: seq<Facts<Y>>, declared: seq<Occurrence>, wants: Y -> seq<Bytes>)

  ghost predicate Fits<X, Y>(settings: Settings<Y>, use: Use<X>) {
    use.declaration < |settings.declared|
  }

  /** The records comparing one use's parameters makes. */
  ghost function RecordsFor<X, Y>(settings: Settings<Y>, use: Use<X>): seq<Mismatch<X>>
    requires Fits(settings, use)
  {
    var target := FactsAbout(settings.established, settings.declared[use.declaration]);
    if target.None? || !use.shared then []
    else Mismatches(settings.wants(target.value.established), use.parameters)
  }

  /** The reference one use becomes: to the facts of the declaration it uses, when there are any and what it
      supplies is what they require. */
  ghost function ReferenceFor<X, Y>(settings: Settings<Y>, use: Use<X>): seq<Reference<X>>
    requires Fits(settings, use)
  {
    var target := FactsAbout(settings.established, settings.declared[use.declaration]);
    if target.None? then []
    else if use.shared && !Matches(settings.wants(target.value.established), use.parameters) then []
    else [Reference(use.occurrence, target.value.occurrence, use.parameters)]
  }

  ghost function AllRecords<X, Y>(settings: Settings<Y>, uses: seq<Use<X>>): seq<Mismatch<X>>
    requires forall use :: use in uses ==> Fits(settings, use)
  {
    if uses == [] then []
    else AllRecords(settings, uses[..|uses| - 1]) + RecordsFor(settings, uses[|uses| - 1])
  }

  ghost function AllReferences<X, Y>(settings: Settings<Y>, uses: seq<Use<X>>): seq<Reference<X>>
    requires forall use :: use in uses ==> Fits(settings, use)
  {
    if uses == [] then []
    else AllReferences(settings, uses[..|uses| - 1]) + ReferenceFor(settings, uses[|uses| - 1])
  }

  lemma OneMore<X, Y>(settings: Settings<Y>, uses: seq<Use<X>>, n: nat)
    requires n < |uses| && forall use :: use in uses ==> Fits(settings, use)
    ensures AllRecords(settings, uses[..n + 1]) == AllRecords(settings, uses[..n]) + RecordsFor(settings, uses[n])
    ensures AllReferences(settings, uses[..n + 1]) == AllReferences(settings, uses[..n]) + ReferenceFor(settings, uses[n])
  {
    hide RecordsFor, ReferenceFor;
    assert uses[..n + 1][..n] == uses[..n];
  }

  lemma {:induction false} RecordsGrow<X, Y>(settings: Settings<Y>, uses: seq<Use<X>>, n: nat)
    requires n <= |uses| && forall use :: use in uses ==> Fits(settings, use)
    ensures |AllRecords(settings, uses[..n])| <= |AllRecords(settings, uses)|
    decreases |uses| - n
  {
    hide RecordsFor, ReferenceFor, AllRecords, AllReferences;
    if n == |uses| {
      assert uses[..n] == uses;
    } else {
      OneMore(settings, uses, n);
      RecordsGrow(settings, uses, n + 1);
    }
  }

  /** The one set of facts about an occurrence is the one the search finds. */
  lemma OnlyFacts<Y>(established: seq<Facts<Y>>, occurrence: Occurrence, found: Option<Facts<Y>>)
    requires found.Some? ==> found.value in established && found.value.occurrence == occurrence
    requires forall facts :: facts in established && facts.occurrence == occurrence ==> found == Some(facts)
    ensures found == FactsAbout(established, occurrence)
  {
  }

  /** Settle every use.  A failed comparison drops the use; records past the budget fail the unit. */
  method Settle<X(!new), Y>(settings: Settings<Y>, uses: seq<Use<X>>, sink: Sink<Mismatch<X>>)
    returns (r: Option<seq<Reference<X>>>)
    requires Increasing(settings.established) && forall use :: use in uses ==> Fits(settings, use)
    requires sink.Valid() && !sink.exhausted
    modifies sink
    ensures sink.Valid()
    ensures r.Some? <==> |old(sink.received)| + |AllRecords(settings, uses)| <= sink.budget
    ensures r.Some? ==> sink.received == old(sink.received) + AllRecords(settings, uses)
    ensures r.Some? ==> Sorted(r.value, RefersNoLater) && multiset(r.value) == multiset(AllReferences(settings, uses))
  {
    hide Increasing, Matches, Mismatches, AllRecords, AllReferences, Sorted, RefersNoLater;
    var references: seq<Reference<X>> := [];
    NoneOfNone(settings, uses[..0]);
    for i := 0 to |uses|
      invariant sink.Valid() && !sink.exhausted
      invariant sink.received == old(sink.received) + AllRecords(settings, uses[..i])
      invariant references == AllReferences(settings, uses[..i])
    {
      var use := uses[i];
      assert use in uses && Fits(settings, use);
      OneMore(settings, uses, i);
      RecordsGrow(settings, uses, i + 1);
      var target := FactsFor(settings.established, settings.declared[use.declaration]);
      OnlyFacts(settings.established, settings.declared[use.declaration], target);
      if target.Some? {
        var matched := true;
        if use.shared {
          matched := CompareParameters(settings.wants(target.value.established), use.parameters, sink);
          if sink.exhausted {
            return None;
          }
        }
        if matched {
          references := references + [Reference(use.occurrence, target.value.occurrence, use.parameters)];
        }
      }
    }
    assert uses[..|uses|] == uses;
    ReferencesAreTotal<X>();
    references := StableSort(references, RefersNoLater);
    r := Some(references);
  }

  lemma NoneOfNone<X, Y>(settings: Settings<Y>, none: seq<Use<X>>)
    requires none == []
    ensures AllRecords(settings, none) == [] && AllReferences(settings, none) == []
  {
  }

  lemma ReferencesAreTotal<X(!new)>()
    ensures TotalPreorder<Reference<X>>(RefersNoLater)
  {
    hide OccursNoLater;
    OccurrencesAreTotal();
  }

  /** Every reference is to facts of the declaration its use named, and supplies exactly what they require. */
  lemma {:induction false} ReferencesMean<X, Y>(settings: Settings<Y>, uses: seq<Use<X>>, reference: Reference<X>)
    requires forall use :: use in uses ==> Fits(settings, use)
    ensures reference in AllReferences(settings, uses)
       <==> exists i :: 0 <= i < |uses| && RefersFor(settings, uses[i], reference)
  {
    if uses != [] {
      hide AllRecords;
      var n := |uses| - 1;
      ReferencesMean(settings, uses[..n], reference);
      LastRefers(settings, uses[n], reference);
      assert forall i :: 0 <= i < n ==> uses[..n][i] == uses[i];
      if i :| 0 <= i < n && RefersFor(settings, uses[..n][i], reference) {
        assert RefersFor(settings, uses[i], reference);
      }
      if i :| 0 <= i < |uses| && RefersFor(settings, uses[i], reference) {
        assert i < n ==> RefersFor(settings, uses[..n][i], reference);
      }
    }
  }

  ghost predicate RefersFor<X, Y>(settings: Settings<Y>, use: Use<X>, reference: Reference<X>) {
    && Fits(settings, use) && reference.occurrence == use.occurrence && reference.parameters == use.parameters
    && reference.target == settings.declared[use.declaration]
    && var target := FactsAbout(settings.established, reference.target);
       target.Some? && (use.shared ==> Matches(settings.wants(target.value.established), use.parameters))
  }

  lemma LastRefers<X, Y>(settings: Settings<Y>, use: Use<X>, reference: Reference<X>)
    requires Fits(settings, use)
    ensures reference in ReferenceFor(settings, use) <==> RefersFor(settings, use, reference)
  {
    hide Matches;
  }

  // ---- what every use comes to, use by use

  /** The declaration this use names was established, and a shared use supplies exactly what it requires. */
  ghost predicate Becomes<X, Y>(settings: Settings<Y>, use: Use<X>)
    requires Fits(settings, use)
  {
    exists k :: 0 <= k < |settings.established|
                && settings.established[k].occurrence == settings.declared[use.declaration]
                && (use.shared ==> Matches(settings.wants(settings.established[k].established), use.parameters))
  }

  ghost predicate ReferencesCut<X, Y>(settings: Settings<Y>, uses: seq<Use<X>>, references: seq<Reference<X>>, at: seq<nat>) {
    var n := |uses|;
    && Cuts(references, at, n)
    && forall i :: 0 <= i < n ==> Fits(settings, uses[i]) && IsReference(settings, uses[i], Piece(references, at, n, i))
  }

  ghost predicate IsReference<X, Y>(settings: Settings<Y>, use: Use<X>, piece: seq<Reference<X>>)
    requires Fits(settings, use)
  {
    piece == if Becomes(settings, use) then [Reference(use.occurrence, settings.declared[use.declaration], use.parameters)] else []
  }

  ghost predicate RecordsCut<X, Y>(settings: Settings<Y>, uses: seq<Use<X>>, records: seq<Mismatch<X>>, at: seq<nat>) {
    var n := |uses|;
    && Cuts(records, at, n)
    && forall i :: 0 <= i < n ==> Fits(settings, uses[i]) && AreRecords(settings, uses[i], Piece(records, at, n, i))
  }

  /** A shared use is compared with the facts of what it names; nothing else is. */
  ghost predicate AreRecords<X, Y>(settings: Settings<Y>, use: Use<X>, piece: seq<Mismatch<X>>)
    requires Fits(settings, use)
  {
    && (forall k :: 0 <= k < |settings.established| && use.shared
                    && settings.established[k].occurrence == settings.declared[use.declaration] ==>
                      piece == Mismatches(settings.wants(settings.established[k].established), use.parameters))
    && ((!use.shared || forall k :: 0 <= k < |settings.established| ==>
                                      settings.established[k].occurrence != settings.declared[use.declaration]) ==>
          piece == [])
  }

  /** Facts that strictly increase hold at most one about each occurrence. */
  lemma OnlyOneFacts<Y>(established: seq<Facts<Y>>, occurrence: Occurrence)
    requires Increasing(established)
    ensures forall k :: 0 <= k < |established| && established[k].occurrence == occurrence ==>
                          FactsAbout(established, occurrence) == Some(established[k])
    ensures (forall k :: 0 <= k < |established| ==> established[k].occurrence != occurrence) ==>
              FactsAbout(established, occurrence) == None
  {
    hide OccurrenceCmp;
    forall k, l | 0 <= k < |established| && 0 <= l < |established|
                  && established[k].occurrence == established[l].occurrence == occurrence
      ensures k == l
    {
      OccurrenceEqual(occurrence, occurrence);
    }
    if k :| 0 <= k < |established| && established[k].occurrence == occurrence {
      assert established[k] in established;
    }
  }

  lemma OneUse<X, Y>(settings: Settings<Y>, use: Use<X>)
    requires Increasing(settings.established) && Fits(settings, use)
    ensures IsReference(settings, use, ReferenceFor(settings, use)) && AreRecords(settings, use, RecordsFor(settings, use))
  {
    hide Increasing, FactsAbout, Matches, Mismatches;
    OnlyOneFacts(settings.established, settings.declared[use.declaration]);
  }

  lemma {:induction false} UsesMean<X, Y>(settings: Settings<Y>, uses: seq<Use<X>>) returns (at: seq<nat>, cut: seq<nat>)
    requires Increasing(settings.established) && forall use :: use in uses ==> Fits(settings, use)
    ensures ReferencesCut(settings, uses, AllReferences(settings, uses), at)
    ensures RecordsCut(settings, uses, AllRecords(settings, uses), cut)
  {
    hide Increasing, IsReference, AreRecords, ReferenceFor, RecordsFor;
    at, cut := [0], [0];
    if uses != [] {
      var n := |uses| - 1;
      at, cut := UsesMean(settings, uses[..n]);
      assert uses[n] in uses;
      OneUse(settings, uses[n]);
      at := OneReferenceMore(settings, uses, AllReferences(settings, uses[..n]), at, ReferenceFor(settings, uses[n]));
      cut := OneRecordMore(settings, uses, AllRecords(settings, uses[..n]), cut, RecordsFor(settings, uses[n]));
    }
  }

  lemma OneReferenceMore<X, Y>(settings: Settings<Y>, uses: seq<Use<X>>, front: seq<Reference<X>>, at: seq<nat>,
                               piece: seq<Reference<X>>)
    returns (more: seq<nat>)
    requires uses != [] && ReferencesCut(settings, uses[..|uses| - 1], front, at)
    requires Fits(settings, uses[|uses| - 1]) && IsReference(settings, uses[|uses| - 1], piece)
    ensures ReferencesCut(settings, uses, front + piece, more)
  {
    hide Cuts, IsReference;
    var n, m := |uses| - 1, |uses|;
    more := OnePieceMore(front, at, n, piece);
    forall i | 0 <= i < m
      ensures Fits(settings, uses[i]) && IsReference(settings, uses[i], Piece(front + piece, more, m, i))
    {
      assert i < n ==> uses[..n][i] == uses[i] && IsReference(settings, uses[..n][i], Piece(front, at, n, i));
    }
  }

  lemma OneRecordMore<X, Y>(settings: Settings<Y>, uses: seq<Use<X>>, front: seq<Mismatch<X>>, at: seq<nat>,
                            piece: seq<Mismatch<X>>)
    returns (more: seq<nat>)
    requires uses != [] && RecordsCut(settings, uses[..|uses| - 1], front, at)
    requires Fits(settings, uses[|uses| - 1]) && AreRecords(settings, uses[|uses| - 1], piece)
    ensures RecordsCut(settings, uses, front + piece, more)
  {
    hide Cuts, AreRecords;
    var n, m := |uses| - 1, |uses|;
    more := OnePieceMore(front, at, n, piece);
    forall i | 0 <= i < m
      ensures Fits(settings, uses[i]) && AreRecords(settings, uses[i], Piece(front + piece, more, m, i))
    {
      assert i < n ==> uses[..n][i] == uses[i] && AreRecords(settings, uses[..n][i], Piece(front, at, n, i));
    }
  }

  /** References come back in order of the occurrences that use. */
  lemma ReferencesOrdered<X>(references: seq<Reference<X>>)
    requires Sorted(references, RefersNoLater)
    ensures forall i, j :: 0 <= i < j < |references| ==>
              !Smaller(OccurrenceKey(references[j].occurrence), OccurrenceKey(references[i].occurrence))
  {
    hide Smaller, OccurrenceKey, OccursNoLater;
    forall i, j | 0 <= i < j < |references|
      ensures !Smaller(OccurrenceKey(references[j].occurrence), OccurrenceKey(references[i].occurrence))
    {
      assert RefersNoLater(references[i], references[j]);
      OccursByKey(references[i].occurrence, references[j].occurrence);
    }
  }
}
