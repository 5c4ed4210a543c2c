/** 016's reporting order: `reporting_cmp` of `crates/intlify_authoring/src/diagnostic.rs` and the canonical
    comparisons of `primitives.rs` below it. */
module Reporting {
  import opened Wrappers
  import opened Orders
  import opened Sorting

  datatype Owner = Owner(kind: nat, identity: Bytes)

  datatype Versioned = Versioned(identity: Bytes, revision: Bytes)

  datatype Snapshot = Snapshot(owner: Owner, unit: Bytes, revision: Bytes, grammar: Versioned, byteLength: nat, digest: Bytes)

  datatype Range = Range(start: nat, end: nat)

  /** A role is known by its spelling. */
  datatype Occurrence = Occurrence(source: Snapshot, range: Range, role: Bytes)

  datatype Location =
    | At(occurrence: Occurrence)
    | Region(source: Snapshot, range: Range)
    | Unit(source: Snapshot)

  /** Who defined the reason, with its code. */
  datatype Origin =
    | Authoring(code: Bytes)
    | Mf2Syntax(code: Bytes)
    | Mf2Semantic(code: Bytes)

  datatype MessageRange =
    | Emitted(range: Range)
    | Supplied(range: Range)

  /** Stages, severities and limits are ordered as they are declared. */
  datatype Diagnostic = Diagnostic(
    stage: nat, origin: Origin, detail: Option<Bytes>, parameter: Option<Bytes>, severity: nat, location: Location,
    messageRange: Option<MessageRange>, sourceRange: Option<Range>, limit: Option<nat>, related: seq<Occurrence>)

  // ---- comparing the parts

  function OwnerParts(a: Owner, b: Owner): seq<Ordering> {
    [CompareNat(a.kind, b.kind), CompareBytes(a.identity, b.identity)]
  }

  function CompareOwner(a: Owner, b: Owner): Ordering {
    Chain(OwnerParts(a, b))
  }

  function VersionedParts(a: Versioned, b: Versioned): seq<Ordering> {
    [CompareBytes(a.identity, b.identity), CompareBytes(a.revision, b.revision)]
  }

  function CompareVersioned(a: Versioned, b: Versioned): Ordering {
    Chain(VersionedParts(a, b))
  }

  /** The declared byte length is not compared. */
  function SnapshotParts(a: Snapshot, b: Snapshot): seq<Ordering> {
    [CompareOwner(a.owner, b.owner), CompareBytes(a.unit, b.unit), CompareBytes(a.revision, b.revision),
     CompareVersioned(a.grammar, b.grammar), CompareBytes(a.digest, b.digest)]
  }

  function SnapshotCmp(a: Snapshot, b: Snapshot): Ordering {
    Chain(SnapshotParts(a, b))
  }

  function RangeParts(a: Range, b: Range): seq<Ordering> {
    [CompareNat(a.start, b.start), CompareNat(a.end, b.end)]
  }

  function CompareRange(a: Range, b: Range): Ordering {
    Chain(RangeParts(a, b))
  }

  function OccurrenceParts(a: Occurrence, b: Occurrence): seq<Ordering> {
    [SnapshotCmp(a.source, b.source), CompareNat(a.range.start, b.range.start), CompareNat(a.range.end, b.range.end),
     CompareBytes(a.role, b.role)]
  }

  function OccurrenceCmp(a: Occurrence, b: Occurrence): Ordering {
    Chain(OccurrenceParts(a, b))
  }

  function SourceOf(location: Location): Snapshot {
    if location.At? then location.occurrence.source else location.source
  }

  function SpanOf(location: Location): Range {
    match location
    case At(occurrence) => occurrence.range
    case Region(_, range) => range
    case Unit(_) => Range(0, 0)
  }

  function RankOf(location: Location): nat {
    match location
    case Unit(_) => 0
    case Region(_, _) => 1
    case At(_) => 2
  }

  function RoleOf(location: Location): Bytes {
    if location.At? then location.occurrence.role else []
  }

  function LocationParts(a: Location, b: Location): seq<Ordering> {
    [SnapshotCmp(SourceOf(a), SourceOf(b)), CompareNat(SpanOf(a).start, SpanOf(b).start),
     CompareNat(SpanOf(a).end, SpanOf(b).end), CompareNat(RankOf(a), RankOf(b)), CompareBytes(RoleOf(a), RoleOf(b))]
  }

  function LocationCmp(a: Location, b: Location): Ordering {
    Chain(LocationParts(a, b))
  }

  function RankOfOrigin(origin: Origin): nat {
    match origin
    case Authoring(_) => 0
    case Mf2Syntax(_) => 1
    case Mf2Semantic(_) => 2
  }

  function SpaceOf(range: MessageRange): nat {
    if range.Emitted? then 0 else 1
  }

  function MessageRangeParts(a: MessageRange, b: MessageRange): seq<Ordering> {
    [CompareNat(SpaceOf(a), SpaceOf(b)), CompareRange(a.range, b.range)]
  }

  function CompareMessageRange(a: MessageRange, b: MessageRange): Ordering {
    Chain(MessageRangeParts(a, b))
  }

  function Shorter(a: nat, b: nat): nat {
    if a < b then a else b
  }

  /** The occurrences pair by pair, as far as both lists reach. */
  function Zipped(a: seq<Occurrence>, b: seq<Occurrence>): (os: seq<Ordering>)
    ensures |os| == Shorter(|a|, |b|)
    ensures forall i :: 0 <= i < |os| ==> os[i] == OccurrenceCmp(a[i], b[i])
  {
    seq(Shorter(|a|, |b|), i requires 0 <= i < Shorter(|a|, |b|) => OccurrenceCmp(a[i], b[i]))
  }

  /** Related occurrences compare by how many there are, and only then one by one. */
  function CompareRelated(a: seq<Occurrence>, b: seq<Occurrence>): Ordering {
    Chain([CompareNat(|a|, |b|), Chain(Zipped(a, b))])
  }

  function ReportingParts(a: Diagnostic, b: Diagnostic): seq<Ordering> {
    [CompareNat(a.stage, b.stage),
     LocationCmp(a.location, b.location),
     CompareNat(RankOfOrigin(a.origin), RankOfOrigin(b.origin)),
     CompareBytes(a.origin.code, b.origin.code),
     CompareOption(a.detail, b.detail, CompareBytes),
     CompareOption(a.parameter, b.parameter, CompareBytes),
     CompareOption(a.messageRange, b.messageRange, CompareMessageRange),
     CompareOption(a.sourceRange, b.sourceRange, CompareRange),
     CompareNat(a.severity, b.severity),
     CompareOption(a.limit, b.limit, CompareNat),
     CompareRelated(a.related, b.related)]
  }

  function ReportingCmp(a: Diagnostic, b: Diagnostic): Ordering {
    Chain(ReportingParts(a, b))
  }

  // ---- every comparison is lawful

  lemma OwnerLaws(a: Owner, b: Owner, c: Owner)
    ensures CompareOwner(b, a) == Flip(CompareOwner(a, b))
    ensures Fair(CompareOwner(a, b), CompareOwner(b, c), CompareOwner(a, c))
  {
    hide Chain, CompareBytes;
    BytesLaws(a.identity, b.identity, c.identity);
    ByParts(OwnerParts(a, b), OwnerParts(b, a), OwnerParts(b, c), OwnerParts(a, c));
  }

  lemma VersionedLaws(a: Versioned, b: Versioned, c: Versioned)
    ensures CompareVersioned(b, a) == Flip(CompareVersioned(a, b))
    ensures Fair(CompareVersioned(a, b), CompareVersioned(b, c), CompareVersioned(a, c))
  {
    hide Chain, CompareBytes;
    BytesLaws(a.identity, b.identity, c.identity);
    BytesLaws(a.revision, b.revision, c.revision);
    ByParts(VersionedParts(a, b), VersionedParts(b, a), VersionedParts(b, c), VersionedParts(a, c));
  }

  lemma SnapshotLaws(a: Snapshot, b: Snapshot, c: Snapshot)
    ensures SnapshotCmp(b, a) == Flip(SnapshotCmp(a, b))
    ensures Fair(SnapshotCmp(a, b), SnapshotCmp(b, c), SnapshotCmp(a, c))
  {
    hide Chain, CompareBytes, CompareOwner, CompareVersioned;
    OwnerLaws(a.owner, b.owner, c.owner);
    BytesLaws(a.unit, b.unit, c.unit);
    BytesLaws(a.revision, b.revision, c.revision);
    VersionedLaws(a.grammar, b.grammar, c.grammar);
    BytesLaws(a.digest, b.digest, c.digest);
    ByParts(SnapshotParts(a, b), SnapshotParts(b, a), SnapshotParts(b, c), SnapshotParts(a, c));
  }

  lemma OccurrenceLaws(a: Occurrence, b: Occurrence, c: Occurrence)
    ensures OccurrenceCmp(b, a) == Flip(OccurrenceCmp(a, b))
    ensures Fair(OccurrenceCmp(a, b), OccurrenceCmp(b, c), OccurrenceCmp(a, c))
  {
    hide Chain, CompareBytes, SnapshotCmp;
    SnapshotLaws(a.source, b.source, c.source);
    BytesLaws(a.role, b.role, c.role);
    ByParts(OccurrenceParts(a, b), OccurrenceParts(b, a), OccurrenceParts(b, c), OccurrenceParts(a, c));
  }

  lemma LocationLaws(a: Location, b: Location, c: Location)
    ensures LocationCmp(b, a) == Flip(LocationCmp(a, b))
    ensures Fair(LocationCmp(a, b), LocationCmp(b, c), LocationCmp(a, c))
  {
    hide Chain, CompareBytes, SnapshotCmp, SourceOf, SpanOf, RankOf, RoleOf;
    SnapshotLaws(SourceOf(a), SourceOf(b), SourceOf(c));
    BytesLaws(RoleOf(a), RoleOf(b), RoleOf(c));
    ByParts(LocationParts(a, b), LocationParts(b, a), LocationParts(b, c), LocationParts(a, c));
  }

  lemma RangeLawful()
    ensures Lawful(CompareRange)
  {
    hide Chain;
    forall a, b, c
      ensures CompareRange(b, a) == Flip(CompareRange(a, b))
      ensures Fair(CompareRange(a, b), CompareRange(b, c), CompareRange(a, c))
    {
      ByParts(RangeParts(a, b), RangeParts(b, a), RangeParts(b, c), RangeParts(a, c));
    }
  }

  lemma MessageRangeLawful()
    ensures Lawful(CompareMessageRange)
  {
    hide Chain, CompareRange;
    RangeLawful();
    forall a, b, c
      ensures CompareMessageRange(b, a) == Flip(CompareMessageRange(a, b))
      ensures Fair(CompareMessageRange(a, b), CompareMessageRange(b, c), CompareMessageRange(a, c))
    {
      assert Fair(CompareRange(a.range, b.range), CompareRange(b.range, c.range), CompareRange(a.range, c.range));
      ByParts(MessageRangeParts(a, b), MessageRangeParts(b, a), MessageRangeParts(b, c), MessageRangeParts(a, c));
    }
  }

  lemma NatLawful()
    ensures Lawful(CompareNat)
  {
  }

  /** Lists of different lengths are told apart before any pair is looked at, so pairing them off is lawful. */
  lemma RelatedLaws(a: seq<Occurrence>, b: seq<Occurrence>, c: seq<Occurrence>)
    ensures CompareRelated(b, a) == Flip(CompareRelated(a, b))
    ensures Fair(CompareRelated(a, b), CompareRelated(b, c), CompareRelated(a, c))
  {
    hide OccurrenceCmp;
    TwoParts(CompareNat(|a|, |b|), Chain(Zipped(a, b)));
    TwoParts(CompareNat(|b|, |a|), Chain(Zipped(b, a)));
    TwoParts(CompareNat(|b|, |c|), Chain(Zipped(b, c)));
    TwoParts(CompareNat(|a|, |c|), Chain(Zipped(a, c)));
    var ab, ba, bc, ac := Zipped(a, b), Zipped(b, a), Zipped(b, c), Zipped(a, c);
    forall i | 0 <= i < |ab|
      ensures ba[i] == Flip(ab[i])
    {
      OccurrenceLaws(a[i], b[i], a[i]);
    }
    ChainFlip(ab, ba);
    if |a| == |b| == |c| {
      forall i | 0 <= i < |ab|
        ensures Fair(ab[i], bc[i], ac[i])
      {
        OccurrenceLaws(a[i], b[i], c[i]);
      }
      ChainFair(ab, bc, ac);
    }
  }

  lemma ReportingLaws(a: Diagnostic, b: Diagnostic, c: Diagnostic)
    ensures ReportingCmp(b, a) == Flip(ReportingCmp(a, b))
    ensures Fair(ReportingCmp(a, b), ReportingCmp(b, c), ReportingCmp(a, c))
  {
    hide *;
    var ab, ba, bc, ac := ReportingParts(a, b), ReportingParts(b, a), ReportingParts(b, c), ReportingParts(a, c);
    PartsLaws(a, b, c);
    ByParts(ab, ba, bc, ac);
    IsChain(a, b);
    IsChain(b, a);
    IsChain(b, c);
    IsChain(a, c);
  }

  lemma IsChain(a: Diagnostic, b: Diagnostic)
    ensures ReportingCmp(a, b) == Chain(ReportingParts(a, b)) && |ReportingParts(a, b)| == 11
  {
  }

  lemma OptionsLaws(a: Diagnostic, b: Diagnostic, c: Diagnostic)
    ensures forall i :: 4 <= i < 8 || i == 9 ==>
              && ReportingParts(b, a)[i] == Flip(ReportingParts(a, b)[i])
              && Fair(ReportingParts(a, b)[i], ReportingParts(b, c)[i], ReportingParts(a, c)[i])
  {
    hide Chain, CompareBytes, LocationCmp, CompareOption, CompareRelated, RankOfOrigin, Lawful;
    BytesLawful();
    OptionLawful(CompareBytes, a.detail, b.detail, c.detail);
    OptionLawful(CompareBytes, a.parameter, b.parameter, c.parameter);
    MessageRangeLawful();
    OptionLawful(CompareMessageRange, a.messageRange, b.messageRange, c.messageRange);
    RangeLawful();
    OptionLawful(CompareRange, a.sourceRange, b.sourceRange, c.sourceRange);
    NatLawful();
    OptionLawful(CompareNat, a.limit, b.limit, c.limit);
  }

  lemma PlainLaws(a: Diagnostic, b: Diagnostic, c: Diagnostic)
    ensures forall i :: 0 <= i < 4 || i == 8 || i == 10 ==>
              && ReportingParts(b, a)[i] == Flip(ReportingParts(a, b)[i])
              && Fair(ReportingParts(a, b)[i], ReportingParts(b, c)[i], ReportingParts(a, c)[i])
  {
    hide Chain, CompareBytes, LocationCmp, CompareOption, CompareRelated, RankOfOrigin;
    LocationLaws(a.location, b.location, c.location);
    BytesLaws(a.origin.code, b.origin.code, c.origin.code);
    RelatedLaws(a.related, b.related, c.related);
  }

  lemma PartsLaws(a: Diagnostic, b: Diagnostic, c: Diagnostic)
    ensures var ab, ba, bc, ac := ReportingParts(a, b), ReportingParts(b, a), ReportingParts(b, c), ReportingParts(a, c);
            && |ab| == |ba| == |bc| == |ac|
            && forall i :: 0 <= i < |ab| ==> ba[i] == Flip(ab[i]) && Fair(ab[i], bc[i], ac[i])
  {
    hide *;
    IsChain(a, b);
    IsChain(b, a);
    IsChain(b, c);
    IsChain(a, c);
    OptionsLaws(a, b, c);
    PlainLaws(a, b, c);
  }

  // ---- what the order is for

  predicate ReportsNoLater(a: Diagnostic, b: Diagnostic) {
    ReportingCmp(a, b) != Greater
  }

  predicate OccursNoLater(a: Occurrence, b: Occurrence) {
    OccurrenceCmp(a, b) != Greater
  }

  /** The reporting order puts any two records in order, and is transitive through every optional part. */
  lemma ReportingIsTotal()
    ensures TotalPreorder(ReportsNoLater)
  {
    hide ReportingCmp;
    forall a, b, c
      ensures ReportsNoLater(a, b) || ReportsNoLater(b, a)
      ensures ReportsNoLater(a, b) && ReportsNoLater(b, c) ==> ReportsNoLater(a, c)
    {
      ReportingLaws(a, b, c);
    }
  }

  lemma OccurrencesAreTotal()
    ensures TotalPreorder(OccursNoLater)
  {
    hide OccurrenceCmp;
    forall a, b, c
      ensures OccursNoLater(a, b) || OccursNoLater(b, a)
      ensures OccursNoLater(a, b) && OccursNoLater(b, c) ==> OccursNoLater(a, c)
    {
      OccurrenceLaws(a, b, c);
    }
  }

  /** Two sorted lists of the same records, however they were supplied, agree at every position. */
  lemma SortedReportsAgree(a: seq<Diagnostic>, b: seq<Diagnostic>)
    requires Sorted(a, ReportsNoLater) && Sorted(b, ReportsNoLater) && multiset(a) == multiset(b)
    ensures |a| == |b| && forall i :: 0 <= i < |a| ==> ReportingCmp(a[i], b[i]) == Equal
  {
    hide ReportingCmp;
    ReportingIsTotal();
    SortedAgree(a, b, ReportsNoLater);
    forall i | 0 <= i < |a|
      ensures ReportingCmp(a[i], b[i]) == Equal
    {
      ReportingLaws(a[i], b[i], a[i]);
      assert ReportsNoLater(a[i], b[i]) && ReportsNoLater(b[i], a[i]);
    }
  }

  // ---- which records are told apart

  function Bare(source: Snapshot): Snapshot {
    source.(byteLength := 0)
  }

  function BareOccurrence(occurrence: Occurrence): Occurrence {
    occurrence.(source := Bare(occurrence.source))
  }

  function BareLocation(location: Location): Location {
    match location
    case At(occurrence) => At(BareOccurrence(occurrence))
    case Region(source, range) => Region(Bare(source), range)
    case Unit(source) => Unit(Bare(source))
  }

  /** Two records that differ, if they do, in declared byte lengths only. */
  predicate SameReport(a: Diagnostic, b: Diagnostic) {
    && a.(location := b.location, related := b.related) == b
    && BareLocation(a.location) == BareLocation(b.location)
    && |a.related| == |b.related|
    && forall i :: 0 <= i < |a.related| ==> BareOccurrence(a.related[i]) == BareOccurrence(b.related[i])
  }

  lemma SnapshotEqual(a: Snapshot, b: Snapshot)
    ensures SnapshotCmp(a, b) == Equal <==> Bare(a) == Bare(b)
  {
    hide Chain, CompareBytes;
    ChainEqual(OwnerParts(a.owner, b.owner));
    ChainEqual(VersionedParts(a.grammar, b.grammar));
    ChainEqual(SnapshotParts(a, b));
    BytesEqual(a.owner.identity, b.owner.identity);
    BytesEqual(a.grammar.identity, b.grammar.identity);
    BytesEqual(a.grammar.revision, b.grammar.revision);
    BytesEqual(a.unit, b.unit);
    BytesEqual(a.revision, b.revision);
    BytesEqual(a.digest, b.digest);
    var owner, grammar, parts := OwnerParts(a.owner, b.owner), VersionedParts(a.grammar, b.grammar), SnapshotParts(a, b);
    assert (forall i :: 0 <= i < |owner| ==> owner[i] == Equal) <==> owner[0] == owner[1] == Equal;
    assert (forall i :: 0 <= i < |grammar| ==> grammar[i] == Equal) <==> grammar[0] == grammar[1] == Equal;
    assert (forall i :: 0 <= i < |parts| ==> parts[i] == Equal)
      <==> parts[0] == parts[1] == parts[2] == parts[3] == parts[4] == Equal;
  }

  lemma OccurrenceEqual(a: Occurrence, b: Occurrence)
    ensures OccurrenceCmp(a, b) == Equal <==> BareOccurrence(a) == BareOccurrence(b)
  {
    hide Chain, CompareBytes, SnapshotCmp;
    SnapshotEqual(a.source, b.source);
    BytesEqual(a.role, b.role);
    var parts := OccurrenceParts(a, b);
    ChainEqual(parts);
    assert (forall i :: 0 <= i < |parts| ==> parts[i] == Equal) <==> parts[0] == parts[1] == parts[2] == parts[3] == Equal;
  }

  lemma LocationEqual(a: Location, b: Location)
    ensures LocationCmp(a, b) == Equal <==> BareLocation(a) == BareLocation(b)
  {
    hide Chain, CompareBytes, SnapshotCmp;
    SnapshotEqual(SourceOf(a), SourceOf(b));
    BytesEqual(RoleOf(a), RoleOf(b));
    var parts := LocationParts(a, b);
    ChainEqual(parts);
    assert (forall i :: 0 <= i < |parts| ==> parts[i] == Equal)
      <==> parts[0] == parts[1] == parts[2] == parts[3] == parts[4] == Equal;
  }

  lemma RelatedEqual(a: seq<Occurrence>, b: seq<Occurrence>)
    ensures CompareRelated(a, b) == Equal
       <==> |a| == |b| && forall i :: 0 <= i < |a| ==> BareOccurrence(a[i]) == BareOccurrence(b[i])
  {
    hide OccurrenceCmp;
    TwoParts(CompareNat(|a|, |b|), Chain(Zipped(a, b)));
    ChainEqual(Zipped(a, b));
    forall i | 0 <= i < Shorter(|a|, |b|)
      ensures OccurrenceCmp(a[i], b[i]) == Equal <==> BareOccurrence(a[i]) == BareOccurrence(b[i])
    {
      OccurrenceEqual(a[i], b[i]);
    }
  }

  lemma RangeEqual(a: Range, b: Range)
    ensures CompareRange(a, b) == Equal <==> a == b
  {
    TwoParts(CompareNat(a.start, b.start), CompareNat(a.end, b.end));
  }

  lemma MessageRangeEqual(a: MessageRange, b: MessageRange)
    ensures CompareMessageRange(a, b) == Equal <==> a == b
  {
    RangeEqual(a.range, b.range);
    TwoParts(CompareNat(SpaceOf(a), SpaceOf(b)), CompareRange(a.range, b.range));
  }

  lemma OriginEqual(a: Origin, b: Origin)
    ensures CompareNat(RankOfOrigin(a), RankOfOrigin(b)) == Equal && CompareBytes(a.code, b.code) == Equal <==> a == b
  {
    BytesEqual(a.code, b.code);
  }

  lemma OptionsEqual(a: Diagnostic, b: Diagnostic)
    ensures CompareOption(a.detail, b.detail, CompareBytes) == Equal <==> a.detail == b.detail
    ensures CompareOption(a.parameter, b.parameter, CompareBytes) == Equal <==> a.parameter == b.parameter
    ensures CompareOption(a.messageRange, b.messageRange, CompareMessageRange) == Equal <==> a.messageRange == b.messageRange
    ensures CompareOption(a.sourceRange, b.sourceRange, CompareRange) == Equal <==> a.sourceRange == b.sourceRange
    ensures CompareOption(a.limit, b.limit, CompareNat) == Equal <==> a.limit == b.limit
  {
    hide CompareBytes, CompareMessageRange, CompareRange;
    if a.detail.Some? && b.detail.Some? {
      BytesEqual(a.detail.value, b.detail.value);
    }
    if a.parameter.Some? && b.parameter.Some? {
      BytesEqual(a.parameter.value, b.parameter.value);
    }
    if a.messageRange.Some? && b.messageRange.Some? {
      MessageRangeEqual(a.messageRange.value, b.messageRange.value);
    }
    if a.sourceRange.Some? && b.sourceRange.Some? {
      RangeEqual(a.sourceRange.value, b.sourceRange.value);
    }
  }

  /** Records that compare equal differ in nothing but the byte lengths their snapshots declare. */
  lemma ReportingEqualExactly(a: Diagnostic, b: Diagnostic)
    ensures ReportingCmp(a, b) == Equal <==> SameReport(a, b)
  {
    hide Chain, CompareBytes, LocationCmp, CompareOption, CompareRelated, BareLocation, BareOccurrence;
    LocationEqual(a.location, b.location);
    OriginEqual(a.origin, b.origin);
    OptionsEqual(a, b);
    RelatedEqual(a.related, b.related);
    var parts := ReportingParts(a, b);
    ChainEqual(parts);
    assert (forall i :: 0 <= i < |parts| ==> parts[i] == Equal)
      <==> && parts[0] == parts[1] == parts[2] == parts[3] == parts[4] == parts[5] == Equal
           && parts[6] == parts[7] == parts[8] == parts[9] == parts[10] == Equal;
  }
}
