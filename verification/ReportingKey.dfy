/** The reporting order as the byte order of one flat key: every field in turn, written so that no key runs into
    the next. */
module ReportingKey {
  import opened Wrappers
  import opened Orders
  import opened Reporting

  // ---- the key

  function Join(parts: seq<Bytes>): Bytes {
    if parts == [] then [] else parts[0] + Join(parts[1..])
  }

  /** Bytes moved up by one, and an end that is smaller than all of them. */
  function Ended(b: Bytes): Bytes {
    if b == [] then [0] else [b[0] + 1] + Ended(b[1..])
  }

  function SnapshotKey(s: Snapshot): Bytes {
    var owner := Join([[s.owner.kind], Ended(s.owner.identity)]);
    var grammar := Join([Ended(s.grammar.identity), Ended(s.grammar.revision)]);
    Join([owner, Ended(s.unit), Ended(s.revision), grammar, Ended(s.digest)])
  }

  function OccurrenceKey(o: Occurrence): Bytes {
    Join([SnapshotKey(o.source), [o.range.start], [o.range.end], Ended(o.role)])
  }

  /** A unit is at its start and comes first, then a region, then an occurrence. */
  function LocationKey(location: Location): Bytes {
    match location
    case Unit(source) => Join([SnapshotKey(source), [0], [0], [0], Ended([])])
    case Region(source, range) => Join([SnapshotKey(source), [range.start], [range.end], [1], Ended([])])
    case At(o) => Join([SnapshotKey(o.source), [o.range.start], [o.range.end], [2], Ended(o.role)])
  }

  /** An authoring reason comes first, then a syntax code, then a semantic one. */
  function OriginPlace(origin: Origin): nat {
    match origin
    case Authoring(_) => 0
    case Mf2Syntax(_) => 1
    case Mf2Semantic(_) => 2
  }

  function RangeKey(range: Range): Bytes {
    [range.start, range.end]
  }

  function MessageRangeKey(messageRange: MessageRange): Bytes {
    match messageRange
    case Emitted(range) => [0, range.start, range.end]
    case Supplied(range) => [1, range.start, range.end]
  }

  function OptionKey<T>(option: Option<T>, key: T -> Bytes): Bytes {
    if option.None? then [0] else [1] + key(option.value)
  }

  function OccurrenceKeys(os: seq<Occurrence>): (keys: seq<Bytes>)
    ensures |keys| == |os| && forall i :: 0 <= i < |os| ==> keys[i] == OccurrenceKey(os[i])
  {
    seq(|os|, i requires 0 <= i < |os| => OccurrenceKey(os[i]))
  }

  function RelatedKey(related: seq<Occurrence>): Bytes {
    [|related|] + Join(OccurrenceKeys(related))
  }

  function ReportKeys(d: Diagnostic): seq<Bytes> {
    [[d.stage], LocationKey(d.location), [OriginPlace(d.origin)], Ended(d.origin.code), OptionKey(d.detail, Ended),
     OptionKey(d.parameter, Ended), OptionKey(d.messageRange, MessageRangeKey), OptionKey(d.sourceRange, RangeKey),
     [d.severity], OptionKey(d.limit, NatKey), RelatedKey(d.related)]
  }

  function NatKey(n: nat): Bytes {
    [n]
  }

  function ReportKey(d: Diagnostic): Bytes {
    Join(ReportKeys(d))
  }

  // ---- keys that decide before they end

  predicate Parts(o: Ordering, x: Bytes, y: Bytes, k: nat) {
    && k < |x| && k < |y| && x[..k] == y[..k] && x[k] != y[k]
    && o == if x[k] < y[k] then Less else Greater
  }

  /** The keys are the same, or part at some place before either ends, the way `o` says. */
  ghost predicate Keyed(o: Ordering, x: Bytes, y: Bytes) {
    (x == y && o == Equal) || exists k: nat :: Parts(o, x, y, k)
  }

  lemma KeyedCompares(o: Ordering, x: Bytes, y: Bytes)
    requires Keyed(o, x, y)
    ensures CompareBytes(x, y) == o
  {
    BytesMean(x, y);
    if x != y {
      var k: nat :| Parts(o, x, y, k);
      assert x[k] < y[k] ==> SmallerAt(x, y, k);
      assert y[k] < x[k] ==> SmallerAt(y, x, k);
    }
  }

  lemma KeyedAnd(o: Ordering, x: Bytes, y: Bytes, p: Ordering, x': Bytes, y': Bytes)
    requires Keyed(o, x, y) && (o == Equal ==> Keyed(p, x', y'))
    ensures Keyed(if o != Equal then o else p, x + x', y + y')
  {
    if o != Equal {
      var k: nat :| Parts(o, x, y, k);
      assert (x + x')[..k] == x[..k] && (y + y')[..k] == y[..k];
      assert Parts(o, x + x', y + y', k);
    } else if x' != y' {
      var k: nat :| Parts(p, x', y', k);
      assert (x + x')[..|x| + k] == x + x'[..k] && (y + y')[..|x| + k] == y + y'[..k];
      assert Parts(p, x + x', y + y', |x| + k);
    }
  }

  lemma {:induction false} KeyedJoin(os: seq<Ordering>, xs: seq<Bytes>, ys: seq<Bytes>)
    requires |os| == |xs| == |ys| && forall i :: 0 <= i < |os| ==> Keyed(os[i], xs[i], ys[i])
    ensures Keyed(Chain(os), Join(xs), Join(ys))
  {
    hide Keyed;
    if os == [] {
      NothingKeyed();
    } else {
      KeyedJoin(os[1..], xs[1..], ys[1..]);
      KeyedAnd(os[0], xs[0], ys[0], Chain(os[1..]), Join(xs[1..]), Join(ys[1..]));
    }
  }

  lemma NothingKeyed()
    ensures Keyed(Equal, [], [])
  {
  }

  lemma NatKeyed(a: nat, b: nat)
    ensures Keyed(CompareNat(a, b), [a], [b])
  {
    if a != b {
      assert Parts(CompareNat(a, b), [a], [b], 0);
    }
  }

  lemma {:induction false} EndedKeyed(a: Bytes, b: Bytes)
    ensures Keyed(CompareBytes(a, b), Ended(a), Ended(b))
  {
    if a == [] || b == [] || a[0] != b[0] {
      assert a != b ==> Parts(CompareBytes(a, b), Ended(a), Ended(b), 0);
    } else {
      hide Keyed;
      EndedKeyed(a[1..], b[1..]);
      NatKeyed(a[0] + 1, a[0] + 1);
      KeyedAnd(Equal, [a[0] + 1], [a[0] + 1], CompareBytes(a[1..], b[1..]), Ended(a[1..]), Ended(b[1..]));
    }
  }

  // ---- the key of each part

  lemma OwnerKeyed(a: Owner, b: Owner)
    ensures Keyed(CompareOwner(a, b), Join([[a.kind], Ended(a.identity)]), Join([[b.kind], Ended(b.identity)]))
  {
    hide Keyed, Ended, CompareBytes, CompareNat, Join, Chain;
    NatKeyed(a.kind, b.kind);
    EndedKeyed(a.identity, b.identity);
    KeyedJoin(OwnerParts(a, b), [[a.kind], Ended(a.identity)], [[b.kind], Ended(b.identity)]);
  }

  lemma VersionedKeyed(a: Versioned, b: Versioned)
    ensures Keyed(CompareVersioned(a, b), Join([Ended(a.identity), Ended(a.revision)]),
                  Join([Ended(b.identity), Ended(b.revision)]))
  {
    hide Keyed, Ended, CompareBytes, Join, Chain;
    EndedKeyed(a.identity, b.identity);
    EndedKeyed(a.revision, b.revision);
    KeyedJoin(VersionedParts(a, b), [Ended(a.identity), Ended(a.revision)], [Ended(b.identity), Ended(b.revision)]);
  }

  lemma SnapshotKeyed(a: Snapshot, b: Snapshot)
    ensures Keyed(SnapshotCmp(a, b), SnapshotKey(a), SnapshotKey(b))
  {
    hide Keyed, Ended, CompareBytes, CompareOwner, CompareVersioned, Join, Chain;
    OwnerKeyed(a.owner, b.owner);
    EndedKeyed(a.unit, b.unit);
    EndedKeyed(a.revision, b.revision);
    VersionedKeyed(a.grammar, b.grammar);
    EndedKeyed(a.digest, b.digest);
    KeyedJoin(SnapshotParts(a, b),
              [Join([[a.owner.kind], Ended(a.owner.identity)]), Ended(a.unit), Ended(a.revision),
               Join([Ended(a.grammar.identity), Ended(a.grammar.revision)]), Ended(a.digest)],
              [Join([[b.owner.kind], Ended(b.owner.identity)]), Ended(b.unit), Ended(b.revision),
               Join([Ended(b.grammar.identity), Ended(b.grammar.revision)]), Ended(b.digest)]);
  }

  lemma OccurrenceKeyed(a: Occurrence, b: Occurrence)
    ensures Keyed(OccurrenceCmp(a, b), OccurrenceKey(a), OccurrenceKey(b))
  {
    hide Keyed, Ended, CompareBytes, CompareNat, SnapshotCmp, SnapshotKey, Join, Chain;
    SnapshotKeyed(a.source, b.source);
    NatKeyed(a.range.start, b.range.start);
    NatKeyed(a.range.end, b.range.end);
    EndedKeyed(a.role, b.role);
    KeyedJoin(OccurrenceParts(a, b), [SnapshotKey(a.source), [a.range.start], [a.range.end], Ended(a.role)],
              [SnapshotKey(b.source), [b.range.start], [b.range.end], Ended(b.role)]);
  }

  function LocationKeys(l: Location): seq<Bytes> {
    [SnapshotKey(SourceOf(l)), [SpanOf(l).start], [SpanOf(l).end], [RankOf(l)], Ended(RoleOf(l))]
  }

  lemma LocationKeyed(a: Location, b: Location)
    ensures Keyed(LocationCmp(a, b), LocationKey(a), LocationKey(b))
  {
    hide Keyed, Ended, CompareBytes, CompareNat, SnapshotCmp, SnapshotKey, Join, Chain;
    SnapshotKeyed(SourceOf(a), SourceOf(b));
    NatKeyed(SpanOf(a).start, SpanOf(b).start);
    NatKeyed(SpanOf(a).end, SpanOf(b).end);
    NatKeyed(RankOf(a), RankOf(b));
    EndedKeyed(RoleOf(a), RoleOf(b));
    KeyedJoin(LocationParts(a, b), LocationKeys(a), LocationKeys(b));
    LocationIs(a);
    LocationIs(b);
  }

  lemma LocationIs(l: Location)
    ensures LocationKey(l) == Join(LocationKeys(l))
  {
    hide Ended, SnapshotKey, Join;
  }

  lemma RangeKeyed(a: Range, b: Range)
    ensures Keyed(CompareRange(a, b), RangeKey(a), RangeKey(b))
  {
    hide Keyed, CompareNat, Join, Chain;
    NatKeyed(a.start, b.start);
    NatKeyed(a.end, b.end);
    KeyedJoin(RangeParts(a, b), [[a.start], [a.end]], [[b.start], [b.end]]);
    TwoJoined([a.start], [a.end]);
    TwoJoined([b.start], [b.end]);
    assert [a.start] + [a.end] == RangeKey(a) && [b.start] + [b.end] == RangeKey(b);
  }

  lemma TwoJoined(x: Bytes, y: Bytes)
    ensures Join([x, y]) == x + y
  {
    assert [x, y][1..] == [y] && [y][1..] == [];
    assert Join([y]) == y + Join([]);
  }

  lemma MessageRangeKeyed(a: MessageRange, b: MessageRange)
    ensures Keyed(CompareMessageRange(a, b), MessageRangeKey(a), MessageRangeKey(b))
  {
    hide Keyed, CompareNat, CompareRange, Join, Chain;
    NatKeyed(SpaceOf(a), SpaceOf(b));
    RangeKeyed(a.range, b.range);
    KeyedJoin(MessageRangeParts(a, b), [[SpaceOf(a)], RangeKey(a.range)], [[SpaceOf(b)], RangeKey(b.range)]);
    TwoJoined([SpaceOf(a)], RangeKey(a.range));
    TwoJoined([SpaceOf(b)], RangeKey(b.range));
    assert [SpaceOf(a)] + RangeKey(a.range) == MessageRangeKey(a) && [SpaceOf(b)] + RangeKey(b.range) == MessageRangeKey(b);
  }

  lemma OptionKeyed<T(!new)>(a: Option<T>, b: Option<T>, compare: (T, T) -> Ordering, key: T -> Bytes)
    requires forall x, y :: Keyed(compare(x, y), key(x), key(y))
    ensures Keyed(CompareOption(a, b, compare), OptionKey(a, key), OptionKey(b, key))
  {
    if a.Some? && b.Some? {
      NatKeyed(1, 1);
      KeyedAnd(Equal, [1], [1], compare(a.value, b.value), key(a.value), key(b.value));
    } else if a.Some? || b.Some? {
      assert Parts(CompareOption(a, b, compare), OptionKey(a, key), OptionKey(b, key), 0);
    }
  }

  lemma RelatedKeyed(a: seq<Occurrence>, b: seq<Occurrence>)
    ensures Keyed(CompareRelated(a, b), RelatedKey(a), RelatedKey(b))
  {
    hide Keyed, OccurrenceCmp, OccurrenceKey, Join, Chain;
    TwoParts(CompareNat(|a|, |b|), Chain(Zipped(a, b)));
    NatKeyed(|a|, |b|);
    if |a| == |b| {
      forall i | 0 <= i < |a|
        ensures Keyed(Zipped(a, b)[i], OccurrenceKeys(a)[i], OccurrenceKeys(b)[i])
      {
        OccurrenceKeyed(a[i], b[i]);
      }
      KeyedJoin(Zipped(a, b), OccurrenceKeys(a), OccurrenceKeys(b));
    }
    KeyedAnd(CompareNat(|a|, |b|), [|a|], [|b|], Chain(Zipped(a, b)), Join(OccurrenceKeys(a)), Join(OccurrenceKeys(b)));
  }

  lemma OptionsKeyed(a: Diagnostic, b: Diagnostic)
    ensures forall i :: 4 <= i < 8 || i == 9 ==> Keyed(ReportingParts(a, b)[i], ReportKeys(a)[i], ReportKeys(b)[i])
  {
    hide Keyed, Ended, CompareBytes, CompareNat, CompareRange, CompareMessageRange, RangeKey, MessageRangeKey, NatKey,
      LocationCmp, LocationKey, CompareRelated, RelatedKey, CompareOption, OptionKey;
    forall x: Bytes, y: Bytes
      ensures Keyed(CompareBytes(x, y), Ended(x), Ended(y))
    {
      EndedKeyed(x, y);
    }
    OptionKeyed(a.detail, b.detail, CompareBytes, Ended);
    OptionKeyed(a.parameter, b.parameter, CompareBytes, Ended);
    forall x, y
      ensures Keyed(CompareMessageRange(x, y), MessageRangeKey(x), MessageRangeKey(y))
    {
      MessageRangeKeyed(x, y);
    }
    OptionKeyed(a.messageRange, b.messageRange, CompareMessageRange, MessageRangeKey);
    forall x, y
      ensures Keyed(CompareRange(x, y), RangeKey(x), RangeKey(y))
    {
      RangeKeyed(x, y);
    }
    OptionKeyed(a.sourceRange, b.sourceRange, CompareRange, RangeKey);
    forall x: nat, y: nat
      ensures Keyed(CompareNat(x, y), NatKey(x), NatKey(y))
    {
      NatKeyIs(x, y);
    }
    OptionKeyed(a.limit, b.limit, CompareNat, NatKey);
  }

  lemma NatKeyIs(x: nat, y: nat)
    ensures Keyed(CompareNat(x, y), NatKey(x), NatKey(y))
  {
    NatKeyed(x, y);
  }

  lemma PlainKeyed(a: Diagnostic, b: Diagnostic)
    ensures forall i :: 0 <= i < 4 || i == 8 || i == 10 ==> Keyed(ReportingParts(a, b)[i], ReportKeys(a)[i], ReportKeys(b)[i])
  {
    hide Keyed, Ended, CompareBytes, CompareNat, LocationCmp, LocationKey, CompareRelated, RelatedKey, CompareOption, OptionKey;
    NatKeyed(a.stage, b.stage);
    LocationKeyed(a.location, b.location);
    NatKeyed(OriginPlace(a.origin), OriginPlace(b.origin));
    EndedKeyed(a.origin.code, b.origin.code);
    NatKeyed(a.severity, b.severity);
    RelatedKeyed(a.related, b.related);
  }

  /** One record is reported no later than another exactly when its key is no larger. */
  lemma ReportsByKey(a: Diagnostic, b: Diagnostic)
    ensures ReportsNoLater(a, b) <==> !Smaller(ReportKey(b), ReportKey(a))
    ensures ReportingCmp(a, b) == CompareBytes(ReportKey(a), ReportKey(b))
  {
    hide Keyed, Join, Chain, CompareBytes, Smaller, ReportKeys, ReportingParts;
    OptionsKeyed(a, b);
    PlainKeyed(a, b);
    PartsLength(a, b);
    KeyedJoin(ReportingParts(a, b), ReportKeys(a), ReportKeys(b));
    KeyedCompares(ReportingCmp(a, b), ReportKey(a), ReportKey(b));
    BytesMean(ReportKey(a), ReportKey(b));
  }

  lemma PartsLength(a: Diagnostic, b: Diagnostic)
    ensures |ReportingParts(a, b)| == |ReportKeys(a)| == |ReportKeys(b)| == 11
  {
    hide CompareBytes, CompareNat, LocationCmp, LocationKey, CompareRelated, RelatedKey, CompareOption, OptionKey, Ended;
  }

  /** The same for occurrences, whose order facts, inputs and references come in. */
  lemma OccursByKey(a: Occurrence, b: Occurrence)
    ensures OccursNoLater(a, b) <==> !Smaller(OccurrenceKey(b), OccurrenceKey(a))
    ensures OccurrenceCmp(a, b) == CompareBytes(OccurrenceKey(a), OccurrenceKey(b))
  {
    hide Keyed, OccurrenceCmp, OccurrenceKey, CompareBytes, Smaller;
    OccurrenceKeyed(a, b);
    KeyedCompares(OccurrenceCmp(a, b), OccurrenceKey(a), OccurrenceKey(b));
    BytesMean(OccurrenceKey(a), OccurrenceKey(b));
  }
}
