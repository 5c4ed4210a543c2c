/** Admitting the units one invocation reads, as `crates/intlify_authoring_js/src/unit.rs` does. */
module Admission {
  import opened Wrappers
  import opened Orders
  import opened Sorting
  import opened Reporting

  datatype Member = Member(unit: Bytes, revision: Bytes)

  datatype SourceUnit = SourceUnit(snapshot: Snapshot, bytes: Bytes)

  datatype Mismatch = ByteLength | Utf8Digest | Encoding

  datatype Failure =
    | Refused(code: nat)  // the invocation itself, before any unit
    | TooManyUnits
    | DuplicateMember(unit: Bytes)
    | DuplicateUnit(unit: Bytes)
    | ForeignOwner(unit: Bytes)
    | UnregisteredGrammar(unit: Bytes)
    | ForeignAnalysis(unit: Bytes)
    | NotAMember(unit: Bytes)
    | UnitTooLong
    | TotalTooLong
    | MissingMember(unit: Bytes)
    | Mismatched(unit: Bytes, mismatch: Mismatch)

  datatype Admitted<G> = Admitted(snapshot: Snapshot, grammar: G, text: Option<Bytes>)

  const U64_MAX: nat := 0xFFFF_FFFF_FFFF_FFFF

  type Quantity = n: nat | n <= U64_MAX

  /** What an invocation fixes.  The grammars registered, the digest and what bytes are UTF-8 are given. */
  datatype Invocation<!G> = Invocation(
    refused: Option<nat>, owner: Owner, complete: bool, units: Quantity, unitBytes: Quantity, totalBytes: Quantity,
    grammarOf: Versioned -> Option<G>, digestOf: Bytes -> Bytes, isUtf8: Bytes -> bool)

  function SaturatingAdd(a: Quantity, b: nat): Quantity {
    if a + b <= U64_MAX then a + b else U64_MAX
  }

  /** Whether supplied bytes are the ones a snapshot names. */
  function Verify<G>(inv: Invocation<G>, unit: SourceUnit): Option<Mismatch> {
    if |unit.bytes| != unit.snapshot.byteLength then Some(ByteLength)
    else if inv.digestOf(unit.bytes) != unit.snapshot.digest then Some(Utf8Digest)
    else if !inv.isUtf8(unit.bytes) then Some(Encoding)
    else None
  }

  // ---- unit order

  predicate MemberNoLater(a: Member, b: Member) {
    CompareBytes(a.unit, b.unit) != Greater
  }

  predicate UnitNoLater(a: SourceUnit, b: SourceUnit) {
    CompareBytes(a.snapshot.unit, b.snapshot.unit) != Greater
  }

  lemma MembersAreTotal()
    ensures TotalPreorder(MemberNoLater)
    ensures forall a, b :: Alike(a, b, MemberNoLater) <==> a.unit == b.unit
  {
    forall a, b, c
      ensures MemberNoLater(a, b) || MemberNoLater(b, a)
      ensures MemberNoLater(a, b) && MemberNoLater(b, c) ==> MemberNoLater(a, c)
      ensures Alike(a, b, MemberNoLater) <==> a.unit == b.unit
    {
      BytesLaws(a.unit, b.unit, c.unit);
      BytesEqual(a.unit, b.unit);
    }
  }

  lemma UnitsAreTotal()
    ensures TotalPreorder(UnitNoLater)
    ensures forall a, b :: Alike(a, b, UnitNoLater) <==> a.snapshot.unit == b.snapshot.unit
  {
    forall a, b, c
      ensures UnitNoLater(a, b) || UnitNoLater(b, a)
      ensures UnitNoLater(a, b) && UnitNoLater(b, c) ==> UnitNoLater(a, c)
      ensures Alike(a, b, UnitNoLater) <==> a.snapshot.unit == b.snapshot.unit
    {
      BytesLaws(a.snapshot.unit, b.snapshot.unit, c.snapshot.unit);
      BytesEqual(a.snapshot.unit, b.snapshot.unit);
    }
  }

  /** Strictly in unit order. */
  ghost predicate Ascending<T>(s: seq<T>, unitOf: T -> Bytes) {
    forall i, j :: 0 <= i < j < |s| ==> CompareBytes(unitOf(s[i]), unitOf(s[j])) == Less
  }

  function UnitOfMember(member: Member): Bytes {
    member.unit
  }

  function UnitOfSource(unit: SourceUnit): Bytes {
    unit.snapshot.unit
  }

  lemma SortedAscend<T(!new)>(s: seq<T>, le: (T, T) -> bool, unitOf: T -> Bytes)
    requires Sorted(s, le) && !Tied(s, le)
    requires forall a, b :: le(a, b) == (CompareBytes(unitOf(a), unitOf(b)) != Greater)
    ensures Ascending(s, unitOf)
  {
    forall i, j | 0 <= i < j < |s|
      ensures CompareBytes(unitOf(s[i]), unitOf(s[j])) == Less
    {
      assert le(s[i], s[j]) && !le(s[j], s[i]);
      BytesFlip(unitOf(s[i]), unitOf(s[j]));
    }
  }

  /** Search a list in unit order. */
  method FindUnit<T>(s: seq<T>, unitOf: T -> Bytes, unit: Bytes) returns (found: Option<nat>)
    requires Ascending(s, unitOf)
    ensures found.Some? ==> found.value < |s| && unitOf(s[found.value]) == unit
    ensures found.None? ==> forall i :: 0 <= i < |s| ==> unitOf(s[i]) != unit
  {
    forall i, j | 0 <= i < j < |s|
      ensures CompareBytes(unitOf(s[j]), unit) == Less ==> CompareBytes(unitOf(s[i]), unit) == Less
      ensures CompareBytes(unitOf(s[i]), unit) == Greater ==> CompareBytes(unitOf(s[j]), unit) == Greater
    {
      var a, b := unitOf(s[i]), unitOf(s[j]);
      BytesLaws(a, b, unit);
      BytesLaws(unit, a, b);
      BytesLaws(a, unit, b);
      BytesLaws(b, unit, a);
    }
    found := BinarySearch(s, (x: T) => CompareBytes(unitOf(x), unit) == Less, (x: T) => CompareBytes(unitOf(x), unit) == Greater);
    if found.Some? {
      BytesEqual(unitOf(s[found.value]), unit);
    }
    forall i | 0 <= i < |s|
      ensures CompareBytes(unitOf(s[i]), unit) == Equal <==> unitOf(s[i]) == unit
    {
      BytesEqual(unitOf(s[i]), unit);
    }
  }

  lemma OneMember(members: seq<Member>, i: nat, j: nat)
    requires Ascending(members, UnitOfMember) && i < |members| && j < |members| && members[i].unit == members[j].unit
    ensures i == j
  {
    BytesEqual(members[i].unit, members[j].unit);
    assert i < j ==> CompareBytes(UnitOfMember(members[i]), UnitOfMember(members[j])) == Less;
    assert j < i ==> CompareBytes(UnitOfMember(members[j]), UnitOfMember(members[i])) == Less;
  }

  /** Whether a snapshot is a member at its own revision. */
  method IsMember(members: seq<Member>, snapshot: Snapshot) returns (r: bool)
    requires Ascending(members, UnitOfMember)
    ensures r <==> Member(snapshot.unit, snapshot.revision) in members
  {
    hide Ascending;
    var at := FindUnit(members, UnitOfMember, snapshot.unit);
    r := at.Some? && members[at.value].revision == snapshot.revision;
    if Member(snapshot.unit, snapshot.revision) in members {
      var i :| 0 <= i < |members| && members[i] == Member(snapshot.unit, snapshot.revision);
      assert UnitOfMember(members[i]) == snapshot.unit;
      if at.Some? {
        OneMember(members, i, at.value);
      }
    }
  }

  // ---- the checks, in unit order

  function Own<G>(inv: Invocation<G>, members: seq<Member>, unit: SourceUnit): Option<Failure> {
    var snapshot := unit.snapshot;
    if snapshot.owner != inv.owner then Some(ForeignOwner(snapshot.unit))
    else if inv.grammarOf(snapshot.grammar).None? then Some(UnregisteredGrammar(snapshot.unit))
    else if Member(snapshot.unit, snapshot.revision) !in members then Some(NotAMember(snapshot.unit))
    else if |unit.bytes| > inv.unitBytes then Some(UnitTooLong)
    else None
  }

  /** The first failure among the units, once `total` bytes are read. */
  function Checked<G>(inv: Invocation<G>, members: seq<Member>, supplied: seq<SourceUnit>, total: Quantity): Option<Failure>
    decreases |supplied|
  {
    if supplied == [] then None
    else if Own(inv, members, supplied[0]).Some? then Own(inv, members, supplied[0])
    else
      var more := SaturatingAdd(total, |supplied[0].bytes|);
      if more > inv.totalBytes then Some(TotalTooLong) else Checked(inv, members, supplied[1..], more)
  }

  /** Something in the list is of this unit. */
  predicate Holds<T>(s: seq<T>, unitOf: T -> Bytes, unit: Bytes) {
    exists i :: 0 <= i < |s| && unitOf(s[i]) == unit
  }

  /** The first member nothing was supplied for. */
  function Missing<T>(members: seq<Member>, supplied: seq<T>, unitOf: T -> Bytes): Option<Failure>
    decreases |members|
  {
    if members == [] then None
    else if !Holds(supplied, unitOf, members[0].unit) then Some(MissingMember(members[0].unit))
    else Missing(members[1..], supplied, unitOf)
  }

  /** Bytes that are not the snapshot's; bytes that are not UTF-8 are admitted without text. */
  function Unverified<G>(inv: Invocation<G>, unit: SourceUnit): Option<Failure> {
    var mismatch := Verify(inv, unit);
    if mismatch.Some? && mismatch.value != Encoding then Some(Mismatched(unit.snapshot.unit, mismatch.value)) else None
  }

  function FirstUnverified<G>(inv: Invocation<G>, supplied: seq<SourceUnit>): Option<Failure>
    decreases |supplied|
  {
    if supplied == [] then None
    else if Unverified(inv, supplied[0]).Some? then Unverified(inv, supplied[0])
    else FirstUnverified(inv, supplied[1..])
  }

  function AdmitOne<G>(inv: Invocation<G>, unit: SourceUnit): Admitted<G>
    requires inv.grammarOf(unit.snapshot.grammar).Some?
  {
    Admitted(unit.snapshot, inv.grammarOf(unit.snapshot.grammar).value, if Verify(inv, unit).None? then Some(unit.bytes) else None)
  }

  /** What the sorted lists come to. */
  function FailureOf<G>(inv: Invocation<G>, members: seq<Member>, supplied: seq<SourceUnit>): Option<Failure> {
    if Checked(inv, members, supplied, 0).Some? then Checked(inv, members, supplied, 0)
    else if inv.complete && Missing(members, supplied, UnitOfSource).Some? then Missing(members, supplied, UnitOfSource)
    else FirstUnverified(inv, supplied)
  }

  // ---- when admission succeeds

  function TotalBytes(supplied: seq<SourceUnit>): nat {
    if supplied == [] then 0 else |supplied[0].bytes| + TotalBytes(supplied[1..])
  }

  /** A running total that saturates shows every overrun, unless nothing can exceed the bound. */
  predicate WithinTotal<G>(inv: Invocation<G>, total: nat) {
    total <= inv.totalBytes || inv.totalBytes == U64_MAX
  }

  lemma {:induction false} CheckedExactly<G>(inv: Invocation<G>, members: seq<Member>, supplied: seq<SourceUnit>, read: nat)
    requires SaturatingAdd(0, read) <= inv.totalBytes
    ensures Checked(inv, members, supplied, SaturatingAdd(0, read)) == None
       <==> && (forall i :: 0 <= i < |supplied| ==> Own(inv, members, supplied[i]) == None)
            && WithinTotal(inv, read + TotalBytes(supplied))
    decreases |supplied|
  {
    if supplied != [] {
      hide Own;
      var more := read + |supplied[0].bytes|;
      assert SaturatingAdd(SaturatingAdd(0, read), |supplied[0].bytes|) == SaturatingAdd(0, more);
      assert forall i :: 0 < i < |supplied| ==> supplied[i] == supplied[1..][i - 1];
      assert forall i :: 0 <= i < |supplied[1..]| ==> supplied[1..][i] == supplied[i + 1];
      if SaturatingAdd(0, more) <= inv.totalBytes {
        CheckedExactly(inv, members, supplied[1..], more);
      }
    }
  }

  lemma {:induction false} MissingExactly<T>(members: seq<Member>, supplied: seq<T>, unitOf: T -> Bytes)
    ensures Missing(members, supplied, unitOf) == None
       <==> forall member :: member in members ==> Holds(supplied, unitOf, member.unit)
    decreases |members|
  {
    hide Holds;
    if members != [] {
      MissingExactly(members[1..], supplied, unitOf);
      assert forall member :: member in members <==> member == members[0] || member in members[1..];
    }
  }

  lemma {:induction false} VerifiedExactly<G>(inv: Invocation<G>, supplied: seq<SourceUnit>)
    ensures FirstUnverified(inv, supplied) == None <==> forall unit :: unit in supplied ==> Unverified(inv, unit) == None
    decreases |supplied|
  {
    hide Unverified;
    if supplied != [] {
      VerifiedExactly(inv, supplied[1..]);
      assert forall unit :: unit in supplied <==> unit == supplied[0] || unit in supplied[1..];
    }
  }

  /** A unit that may be read: this owner's, in a registered grammar, a member at its own revision, short enough,
      and of the bytes its snapshot names. */
  ghost predicate Readable<G>(inv: Invocation<G>, membership: seq<Member>, unit: SourceUnit) {
    && unit.snapshot.owner == inv.owner && inv.grammarOf(unit.snapshot.grammar).Some?
    && Member(unit.snapshot.unit, unit.snapshot.revision) in membership
    && |unit.bytes| <= inv.unitBytes
    && |unit.bytes| == unit.snapshot.byteLength && inv.digestOf(unit.bytes) == unit.snapshot.digest
  }

  lemma FailureExactly<G>(inv: Invocation<G>, members: seq<Member>, supplied: seq<SourceUnit>)
    ensures FailureOf(inv, members, supplied) == None
       <==> && (forall unit :: unit in supplied ==> Readable(inv, members, unit))
            && WithinTotal(inv, TotalBytes(supplied))
            && (inv.complete ==> forall member :: member in members ==> Holds(supplied, UnitOfSource, member.unit))
  {
    hide Checked, Missing, FirstUnverified, TotalBytes, Holds, Own, Unverified, Readable;
    CheckedExactly(inv, members, supplied, 0);
    MissingExactly(members, supplied, UnitOfSource);
    VerifiedExactly(inv, supplied);
    forall unit
      ensures Own(inv, members, unit) == None && Unverified(inv, unit) == None <==> Readable(inv, members, unit)
    {
      ReadableIs(inv, members, unit);
    }
    assert (forall unit :: unit in supplied ==> Own(inv, members, unit) == None)
      <==> (forall i :: 0 <= i < |supplied| ==> Own(inv, members, supplied[i]) == None);
  }

  lemma ReadableIs<G>(inv: Invocation<G>, members: seq<Member>, unit: SourceUnit)
    ensures Own(inv, members, unit) == None && Unverified(inv, unit) == None <==> Readable(inv, members, unit)
  {
  }

  // ---- the whole of admission

  /** What admission gives: decided by the two lists in unit order. */
  ghost predicate Admits<G>(inv: Invocation<G>, membership: seq<Member>, units: seq<SourceUnit>,
                            r: Result<seq<Admitted<G>>, Failure>)
  {
    if inv.refused.Some? then r == Err(Refused(inv.refused.value))
    else if |membership| > inv.units || |units| > inv.units then r == Err(TooManyUnits)
    else exists m :: Sorts(membership, MemberNoLater, m) && AfterMembers(inv, m, units, r)
  }

  ghost predicate AfterMembers<G>(inv: Invocation<G>, m: Result<seq<Member>, Member>, units: seq<SourceUnit>,
                                  r: Result<seq<Admitted<G>>, Failure>)
  {
    if m.Err? then r == Err(DuplicateMember(m.error.unit))
    else exists u :: Sorts(units, UnitNoLater, u) && AfterUnits(inv, m.value, u, r)
  }

  ghost predicate AfterUnits<G>(inv: Invocation<G>, members: seq<Member>, u: Result<seq<SourceUnit>, SourceUnit>,
                                r: Result<seq<Admitted<G>>, Failure>)
  {
    if u.Err? then r == Err(DuplicateUnit(u.error.snapshot.unit))
    else if FailureOf(inv, members, u.value).Some? then r == Err(FailureOf(inv, members, u.value).value)
    else r.Ok? && AdmitsAll(inv, u.value, r.value)
  }

  ghost predicate AdmitsAll<G>(inv: Invocation<G>, supplied: seq<SourceUnit>, admitted: seq<Admitted<G>>) {
    && |admitted| == |supplied|
    && forall i :: 0 <= i < |supplied| ==>
         inv.grammarOf(supplied[i].snapshot.grammar).Some? && admitted[i] == AdmitOne(inv, supplied[i])
  }

  /** The members strictly ascending by unit, or the least unit that repeats. */
  method SortedMembers(membership: seq<Member>) returns (r: Result<seq<Member>, Member>)
    ensures Sorts(membership, MemberNoLater, r)
    ensures r.Ok? ==> Ascending(r.value, UnitOfMember)
  {
    hide Tied, Sorted, Repeated;
    MembersAreTotal();
    r := SortDistinct(membership, MemberNoLater);
    if r.Ok? {
      TiedAnyOrder(membership, r.value, MemberNoLater);
      SortedAscend(r.value, MemberNoLater, UnitOfMember);
    }
  }

  method SortedUnits(units: seq<SourceUnit>) returns (r: Result<seq<SourceUnit>, SourceUnit>)
    ensures Sorts(units, UnitNoLater, r)
    ensures r.Ok? ==> Ascending(r.value, UnitOfSource)
  {
    hide Tied, Sorted, Repeated;
    UnitsAreTotal();
    r := SortDistinct(units, UnitNoLater);
    if r.Ok? {
      TiedAnyOrder(units, r.value, UnitNoLater);
      SortedAscend(r.value, UnitNoLater, UnitOfSource);
    }
  }

  /** Check each unit, cheapest check first, adding up their bytes. */
  method CheckUnits<G>(inv: Invocation<G>, members: seq<Member>, supplied: seq<SourceUnit>)
    returns (failure: Option<Failure>, grammars: seq<G>)
    requires Ascending(members, UnitOfMember)
    ensures failure == Checked(inv, members, supplied, 0)
    ensures failure.None? ==> |grammars| == |supplied|
    ensures failure.None? ==>
              forall i :: 0 <= i < |supplied| ==> inv.grammarOf(supplied[i].snapshot.grammar) == Some(grammars[i])
  {
    hide Ascending;
    grammars := [];
    var total: Quantity := 0;
    assert supplied[0..] == supplied;
    for i := 0 to |supplied|
      invariant Checked(inv, members, supplied, 0) == Checked(inv, members, supplied[i..], total)
      invariant |grammars| == i
      invariant forall k :: 0 <= k < i ==> inv.grammarOf(supplied[k].snapshot.grammar) == Some(grammars[k])
    {
      var unit := supplied[i];
      var snapshot := unit.snapshot;
      assert supplied[i..][0] == unit && supplied[i..][1..] == supplied[i + 1..];
      if snapshot.owner != inv.owner {
        return Some(ForeignOwner(snapshot.unit)), grammars;
      }
      var grammar := inv.grammarOf(snapshot.grammar);
      if grammar.None? {
        return Some(UnregisteredGrammar(snapshot.unit)), grammars;
      }
      var member := IsMember(members, snapshot);
      if !member {
        return Some(NotAMember(snapshot.unit)), grammars;
      }
      var length := |unit.bytes|;
      if length > inv.unitBytes {
        return Some(UnitTooLong), grammars;
      }
      total := SaturatingAdd(total, length);
      if total > inv.totalBytes {
        return Some(TotalTooLong), grammars;
      }
      grammars := grammars + [grammar.value];
    }
    failure := None;
  }

  /** Every member of a complete scope has to be supplied. */
  method FindMissing<T>(members: seq<Member>, supplied: seq<T>, unitOf: T -> Bytes) returns (failure: Option<Failure>)
    requires Ascending(supplied, unitOf)
    ensures failure == Missing(members, supplied, unitOf)
  {
    hide Ascending;
    assert members[0..] == members;
    for i := 0 to |members|
      invariant Missing(members, supplied, unitOf) == Missing(members[i..], supplied, unitOf)
    {
      assert members[i..][0] == members[i] && members[i..][1..] == members[i + 1..];
      var at := FindUnit(supplied, unitOf, members[i].unit);
      if at.None? {
        return Some(MissingMember(members[i].unit));
      }
    }
    failure := None;
  }

  method VerifyUnits<G>(inv: Invocation<G>, supplied: seq<SourceUnit>, grammars: seq<G>)
    returns (r: Result<seq<Admitted<G>>, Failure>)
    requires |grammars| == |supplied|
    requires forall i :: 0 <= i < |supplied| ==> inv.grammarOf(supplied[i].snapshot.grammar) == Some(grammars[i])
    ensures r.Err? <==> FirstUnverified(inv, supplied).Some?
    ensures r.Err? ==> FirstUnverified(inv, supplied) == Some(r.error)
    ensures r.Ok? ==> AdmitsAll(inv, supplied, r.value)
  {
    var admitted: seq<Admitted<G>> := [];
    assert supplied[0..] == supplied;
    for i := 0 to |supplied|
      invariant FirstUnverified(inv, supplied) == FirstUnverified(inv, supplied[i..])
      invariant |admitted| == i && forall k :: 0 <= k < i ==> admitted[k] == AdmitOne(inv, supplied[k])
    {
      var unit := supplied[i];
      assert supplied[i..][0] == unit && supplied[i..][1..] == supplied[i + 1..];
      var mismatch := Verify(inv, unit);
      if mismatch.Some? && mismatch.value != Encoding {
        return Err(Mismatched(unit.snapshot.unit, mismatch.value));
      }
      var text := if mismatch.None? then Some(unit.bytes) else None;
      admitted := admitted + [Admitted(unit.snapshot, grammars[i], text)];
    }
    r := Ok(admitted);
  }

  /** Every check in turn, on the two lists once they are sorted. */
  method AdmitUnits<G>(inv: Invocation<G>, membership: seq<Member>, units: seq<SourceUnit>)
    returns (r: Result<seq<Admitted<G>>, Failure>)
    ensures Admits(inv, membership, units, r)
  {
    hide Sorts, Ascending, Checked, Missing, FirstUnverified, AdmitsAll;
    if inv.refused.Some? {
      return Err(Refused(inv.refused.value));
    }
    if |membership| > inv.units || |units| > inv.units {
      return Err(TooManyUnits);
    }
    var m := SortedMembers(membership);
    if m.Err? {
      r := Err(DuplicateMember(m.error.unit));
    } else {
      r := AdmitTo(inv, m.value, units);
    }
    assert AfterMembers(inv, m, units, r);
  }

  /** Admit the units to a membership in unit order. */
  method AdmitTo<G>(inv: Invocation<G>, members: seq<Member>, units: seq<SourceUnit>)
    returns (r: Result<seq<Admitted<G>>, Failure>)
    requires Ascending(members, UnitOfMember)
    ensures exists u :: Sorts(units, UnitNoLater, u) && AfterUnits(inv, members, u, r)
  {
    hide Sorts, Ascending, Checked, Missing, FirstUnverified, AdmitsAll;
    var u := SortedUnits(units);
    if u.Err? {
      r := Err(DuplicateUnit(u.error.snapshot.unit));
      assert AfterUnits(inv, members, u, r);
      return;
    }
    var failure, grammars := CheckUnits(inv, members, u.value);
    if failure.None? && inv.complete {
      failure := FindMissing(members, u.value, UnitOfSource);
    }
    if failure.Some? {
      r := Err(failure.value);
      assert AfterUnits(inv, members, u, r);
      return;
    }
    r := VerifyUnits(inv, u.value, grammars);
    assert AfterUnits(inv, members, u, r);
  }

  // ---- what admission promises

  lemma AdmittedAlike<G>(inv: Invocation<G>, supplied: seq<SourceUnit>, p: seq<Admitted<G>>, q: seq<Admitted<G>>)
    requires AdmitsAll(inv, supplied, p) && AdmitsAll(inv, supplied, q)
    ensures p == q
  {
    hide AdmitOne;
  }

  /** Given in another order, the same membership and the same units are admitted alike, or refused alike. */
  lemma OrderIndependent<G>(inv: Invocation<G>, m: seq<Member>, n: seq<Member>, u: seq<SourceUnit>, v: seq<SourceUnit>,
                            p: Result<seq<Admitted<G>>, Failure>, q: Result<seq<Admitted<G>>, Failure>)
    requires multiset(m) == multiset(n) && multiset(u) == multiset(v)
    requires Admits(inv, m, u, p) && Admits(inv, n, v, q)
    ensures p == q
  {
    hide Sorts, AdmitsAll, FailureOf, MemberNoLater, UnitNoLater;
    SameElements(m, n);
    SameElements(u, v);
    if inv.refused.None? && |m| <= inv.units && |u| <= inv.units {
      MembersAreTotal();
      UnitsAreTotal();
      var a :| Sorts(m, MemberNoLater, a) && AfterMembers(inv, a, u, p);
      var b :| Sorts(n, MemberNoLater, b) && AfterMembers(inv, b, v, q);
      SortsAlike(m, n, MemberNoLater, a, b);
      if a.Ok? {
        var c :| Sorts(u, UnitNoLater, c) && AfterUnits(inv, a.value, c, p);
        var d :| Sorts(v, UnitNoLater, d) && AfterUnits(inv, b.value, d, q);
        SortsAlike(u, v, UnitNoLater, c, d);
        if p.Ok? && q.Ok? {
          AdmittedAlike(inv, c.value, p.value, q.value);
        }
      }
    }
  }

  /** No unit is named twice. */
  ghost predicate NamedOnce<T>(s: seq<T>, unitOf: T -> Bytes) {
    forall i, j :: 0 <= i < j < |s| ==> unitOf(s[i]) != unitOf(s[j])
  }

  lemma NotTiedNamedOnce<T(!new)>(s: seq<T>, le: (T, T) -> bool, unitOf: T -> Bytes)
    requires forall a, b :: Alike(a, b, le) <==> unitOf(a) == unitOf(b)
    ensures !Tied(s, le) <==> NamedOnce(s, unitOf)
  {
    if NamedOnce(s, unitOf) {
      forall i, j | 0 <= i < j < |s|
        ensures !(le(s[i], s[j]) && le(s[j], s[i]))
      {
        assert !Alike(s[i], s[j], le);
      }
    }
    if !Tied(s, le) {
      forall i, j | 0 <= i < j < |s|
        ensures unitOf(s[i]) != unitOf(s[j])
      {
        assert !Alike(s[i], s[j], le);
      }
    }
  }

  /** Everything units have to meet to be admitted. */
  ghost predicate Admissible<G>(inv: Invocation<G>, membership: seq<Member>, units: seq<SourceUnit>) {
    && inv.refused.None? && |membership| <= inv.units && |units| <= inv.units
    && NamedOnce(membership, UnitOfMember) && NamedOnce(units, UnitOfSource)
    && (forall unit :: unit in units ==> Readable(inv, membership, unit))
    && WithinTotal(inv, TotalBytes(units))
    && (inv.complete ==> forall member :: member in membership ==> Holds(units, UnitOfSource, member.unit))
  }

  function BytesOf(unit: SourceUnit): Bytes {
    unit.bytes
  }

  lemma {:induction false} TotalIsFlat(s: seq<SourceUnit>)
    ensures TotalBytes(s) == |Flat(BytesOf, s)|
  {
    if s != [] {
      TotalIsFlat(s[1..]);
    }
  }

  lemma TotalAnyOrder(a: seq<SourceUnit>, b: seq<SourceUnit>)
    requires multiset(a) == multiset(b)
    ensures TotalBytes(a) == TotalBytes(b)
  {
    hide TotalBytes, Flat;
    TotalIsFlat(a);
    TotalIsFlat(b);
    FlatAnyOrder(BytesOf, a, b);
    SameElements(Flat(BytesOf, a), Flat(BytesOf, b));
  }

  lemma HoldsAnyOrder<T>(a: seq<T>, b: seq<T>, unitOf: T -> Bytes, unit: Bytes)
    requires multiset(a) == multiset(b) && Holds(a, unitOf, unit)
    ensures Holds(b, unitOf, unit)
  {
    SameElements(a, b);
    var i :| 0 <= i < |a| && unitOf(a[i]) == unit;
    assert a[i] in b;
    var j :| 0 <= j < |b| && b[j] == a[i];
  }

  lemma FineAnyOrder<G>(inv: Invocation<G>, m: seq<Member>, n: seq<Member>, u: seq<SourceUnit>, v: seq<SourceUnit>)
    requires multiset(m) == multiset(n) && multiset(u) == multiset(v) && FailureOf(inv, m, u) == None
    ensures && (forall unit :: unit in v ==> Readable(inv, n, unit)) && WithinTotal(inv, TotalBytes(v))
            && (inv.complete ==> forall member :: member in n ==> Holds(v, UnitOfSource, member.unit))
  {
    hide FailureOf, TotalBytes, Holds;
    FailureExactly(inv, m, u);
    SameElements(m, n);
    SameElements(u, v);
    TotalAnyOrder(u, v);
    if inv.complete {
      forall member | member in n
        ensures Holds(v, UnitOfSource, member.unit)
      {
        HoldsAnyOrder(u, v, UnitOfSource, member.unit);
      }
    }
  }

  /** Units are admitted exactly when each may be read, none and no member is named twice, the whole stays within
      its bounds, and a complete scope has every member supplied. */
  lemma AdmitsExactly<G>(inv: Invocation<G>, membership: seq<Member>, units: seq<SourceUnit>,
                         r: Result<seq<Admitted<G>>, Failure>)
    requires Admits(inv, membership, units, r)
    ensures r.Ok? <==> Admissible(inv, membership, units)
  {
    hide Sorted, Tied, Repeated, AdmitsAll, FailureOf, TotalBytes, Holds, Readable, NamedOnce, MemberNoLater, UnitNoLater;
    if inv.refused.None? && |membership| <= inv.units && |units| <= inv.units {
      MembersAreTotal();
      UnitsAreTotal();
      NotTiedNamedOnce(membership, MemberNoLater, UnitOfMember);
      NotTiedNamedOnce(units, UnitNoLater, UnitOfSource);
      RepeatedTies(membership, MemberNoLater);
      RepeatedTies(units, UnitNoLater);
      var m :| Sorts(membership, MemberNoLater, m) && AfterMembers(inv, m, units, r);
      if m.Ok? {
        var u :| Sorts(units, UnitNoLater, u) && AfterUnits(inv, m.value, u, r);
        if u.Ok? {
          if r.Ok? {
            FineAnyOrder(inv, m.value, membership, u.value, units);
          }
          if Admissible(inv, membership, units) {
            FailureExactly(inv, membership, units);
            FineAnyOrder(inv, membership, m.value, units, u.value);
            FailureExactly(inv, m.value, u.value);
          }
        }
      }
    }
  }

  function UnitOfAdmitted<G>(admitted: Admitted<G>): Bytes {
    admitted.snapshot.unit
  }

  /** Admitted units are strictly in unit order, each a supplied one and a member at its own revision, and they
      are all that was supplied; of a complete scope they are every member. */
  lemma AdmittedUnits<G>(inv: Invocation<G>, membership: seq<Member>, units: seq<SourceUnit>, admitted: seq<Admitted<G>>)
    requires Admits(inv, membership, units, Ok(admitted))
    ensures Ascending(admitted, UnitOfAdmitted)
    ensures forall a :: a in admitted ==> Member(a.snapshot.unit, a.snapshot.revision) in membership
    ensures forall b :: Holds(units, UnitOfSource, b) <==> Holds(admitted, UnitOfAdmitted, b)
    ensures inv.complete ==>
              forall b :: Holds(membership, UnitOfMember, b) <==> Holds(admitted, UnitOfAdmitted, b)
  {
    hide Sorted, Tied, Repeated, FailureOf, TotalBytes, MemberNoLater, UnitNoLater, Ascending;
    AdmitsExactly(inv, membership, units, Ok(admitted));
    MembersAreTotal();
    UnitsAreTotal();
    var m :| Sorts(membership, MemberNoLater, m) && AfterMembers(inv, m, units, Ok(admitted));
    var u :| Sorts(units, UnitNoLater, u) && AfterUnits(inv, m.value, u, Ok(admitted));
    TiedAnyOrder(units, u.value, UnitNoLater);
    SameElements(units, u.value);
    AdmittedAscend(inv, u.value, admitted);
    AdmittedSupplied(inv, units, u.value, admitted);
    forall a | a in admitted
      ensures Member(a.snapshot.unit, a.snapshot.revision) in membership
    {
      var i :| 0 <= i < |admitted| && admitted[i] == a;
      assert u.value[i] in units && Readable(inv, membership, u.value[i]);
    }
    if inv.complete {
      MembersAdmitted(inv, membership, units, admitted);
    }
  }

  lemma AdmittedAscend<G>(inv: Invocation<G>, supplied: seq<SourceUnit>, admitted: seq<Admitted<G>>)
    requires Sorted(supplied, UnitNoLater) && !Tied(supplied, UnitNoLater) && AdmitsAll(inv, supplied, admitted)
    ensures Ascending(admitted, UnitOfAdmitted)
  {
    hide Sorted, Tied, UnitNoLater;
    assert forall a, b :: UnitNoLater(a, b) == (CompareBytes(UnitOfSource(a), UnitOfSource(b)) != Greater) by {
      UnitOrder();
    }
    SortedAscend(supplied, UnitNoLater, UnitOfSource);
    forall i, j | 0 <= i < j < |admitted|
      ensures CompareBytes(UnitOfAdmitted(admitted[i]), UnitOfAdmitted(admitted[j])) == Less
    {
      assert CompareBytes(UnitOfSource(supplied[i]), UnitOfSource(supplied[j])) == Less;
    }
  }

  lemma UnitOrder()
    ensures forall a, b :: UnitNoLater(a, b) == (CompareBytes(UnitOfSource(a), UnitOfSource(b)) != Greater)
  {
  }

  lemma AdmittedSupplied<G>(inv: Invocation<G>, units: seq<SourceUnit>, supplied: seq<SourceUnit>, admitted: seq<Admitted<G>>)
    requires multiset(units) == multiset(supplied) && AdmitsAll(inv, supplied, admitted)
    ensures forall b :: Holds(units, UnitOfSource, b) <==> Holds(admitted, UnitOfAdmitted, b)
  {
    forall b
      ensures Holds(units, UnitOfSource, b) <==> Holds(admitted, UnitOfAdmitted, b)
    {
      if Holds(units, UnitOfSource, b) {
        HoldsAnyOrder(units, supplied, UnitOfSource, b);
        var i :| 0 <= i < |supplied| && supplied[i].snapshot.unit == b;
        assert admitted[i].snapshot.unit == b;
      }
      if i :| 0 <= i < |admitted| && admitted[i].snapshot.unit == b {
        assert supplied[i].snapshot.unit == b;
        HoldsAnyOrder(supplied, units, UnitOfSource, b);
      }
    }
  }

  lemma MembersAdmitted<G>(inv: Invocation<G>, membership: seq<Member>, units: seq<SourceUnit>, admitted: seq<Admitted<G>>)
    requires inv.complete && Admissible(inv, membership, units)
    requires forall a :: a in admitted ==> Member(a.snapshot.unit, a.snapshot.revision) in membership
    requires forall b :: Holds(units, UnitOfSource, b) <==> Holds(admitted, UnitOfAdmitted, b)
    ensures forall b :: Holds(membership, UnitOfMember, b) <==> Holds(admitted, UnitOfAdmitted, b)
  {
    hide Readable, NamedOnce, TotalBytes;
    forall b
      ensures Holds(membership, UnitOfMember, b) <==> Holds(admitted, UnitOfAdmitted, b)
    {
      if i :| 0 <= i < |membership| && UnitOfMember(membership[i]) == b {
        assert membership[i] in membership;
        assert Holds(units, UnitOfSource, b);
      }
      if i :| 0 <= i < |admitted| && admitted[i].snapshot.unit == b {
        assert admitted[i] in admitted;
        var k :| 0 <= k < |membership| && membership[k] == Member(b, admitted[i].snapshot.revision);
        assert UnitOfMember(membership[k]) == b;
      }
    }
  }
}
