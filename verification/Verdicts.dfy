/** What admission says, of the units themselves: what each failure means, and what is admitted of each unit. */
module Verdicts {
  import opened Wrappers
  import opened Orders
  import opened Sorting
  import opened Admission

  /** The supplied units in strict order of their names. */
  ghost predicate InUnitOrder(supplied: seq<SourceUnit>, units: seq<SourceUnit>) {
    && multiset(supplied) == multiset(units)
    && forall i, j :: 0 <= i < j < |supplied| ==> Smaller(supplied[i].snapshot.unit, supplied[j].snapshot.unit)
  }

  /** The unit belongs to the invocation and is short enough. */
  ghost predicate Sound<G>(inv: Invocation<G>, membership: seq<Member>, unit: SourceUnit) {
    && unit.snapshot.owner == inv.owner && inv.grammarOf(unit.snapshot.grammar).Some?
    && Member(unit.snapshot.unit, unit.snapshot.revision) in membership && |unit.bytes| <= inv.unitBytes
  }

  /** The bytes are the ones the snapshot names. */
  ghost predicate Genuine<G>(inv: Invocation<G>, unit: SourceUnit) {
    |unit.bytes| == unit.snapshot.byteLength && inv.digestOf(unit.bytes) == unit.snapshot.digest
  }

  /** The first `k` units are sound and within bounds together. */
  ghost predicate SoundTo<G>(inv: Invocation<G>, membership: seq<Member>, supplied: seq<SourceUnit>, k: nat) {
    && k <= |supplied| && (forall i :: 0 <= i < k ==> Sound(inv, membership, supplied[i]))
    && (TotalBytes(supplied[..k]) <= inv.totalBytes || inv.totalBytes == 0xFFFF_FFFF_FFFF_FFFF)
  }

  /** Nothing was supplied for the member named `u`. */
  ghost predicate Lacking(membership: seq<Member>, units: seq<SourceUnit>, u: Bytes) {
    && (exists member :: member in membership && member.unit == u)
    && forall unit :: unit in units ==> unit.snapshot.unit != u
  }

  /** `u` is the least name given twice. */
  ghost predicate MemberTwice(membership: seq<Member>, u: Bytes) {
    exists i, j :: 0 <= i < j < |membership| && membership[i].unit == membership[j].unit == u
  }

  ghost predicate UnitTwice(units: seq<SourceUnit>, u: Bytes) {
    exists i, j :: 0 <= i < j < |units| && units[i].snapshot.unit == units[j].snapshot.unit == u
  }

  /** What each failure means, where the units come in order as `supplied` and `k` is the one that failed. */
  ghost predicate Means<G>(inv: Invocation<G>, membership: seq<Member>, units: seq<SourceUnit>, failure: Failure,
                           supplied: seq<SourceUnit>, k: nat)
  {
    match failure
    case Refused(code) => inv.refused == Some(code)
    case TooManyUnits => inv.refused.None? && (|membership| > inv.units || |units| > inv.units)
    case DuplicateMember(u) => MemberTwice(membership, u) && forall v :: MemberTwice(membership, v) ==> !Smaller(v, u)
    case DuplicateUnit(u) => UnitTwice(units, u) && forall v :: UnitTwice(units, v) ==> !Smaller(v, u)
    case ForeignOwner(u) => FirstBad(inv, membership, units, supplied, k, u) && supplied[k].snapshot.owner != inv.owner
    case UnregisteredGrammar(u) =>
      && FirstBad(inv, membership, units, supplied, k, u) && supplied[k].snapshot.owner == inv.owner
      && inv.grammarOf(supplied[k].snapshot.grammar).None?
    case NotAMember(u) =>
      && FirstBad(inv, membership, units, supplied, k, u) && supplied[k].snapshot.owner == inv.owner
      && inv.grammarOf(supplied[k].snapshot.grammar).Some?
      && Member(supplied[k].snapshot.unit, supplied[k].snapshot.revision) !in membership
    case UnitTooLong =>
      && InUnitOrder(supplied, units) && k < |supplied| && SoundTo(inv, membership, supplied, k)
      && supplied[k].snapshot.owner == inv.owner && inv.grammarOf(supplied[k].snapshot.grammar).Some?
      && Member(supplied[k].snapshot.unit, supplied[k].snapshot.revision) in membership
      && |supplied[k].bytes| > inv.unitBytes
    case TotalTooLong =>
      && InUnitOrder(supplied, units) && k < |supplied| && SoundTo(inv, membership, supplied, k)
      && Sound(inv, membership, supplied[k]) && !SoundTo(inv, membership, supplied, k + 1)
    case MissingMember(u) =>
      && inv.complete && InUnitOrder(supplied, units) && SoundTo(inv, membership, supplied, |supplied|)
      && Lacking(membership, units, u) && forall v :: Lacking(membership, units, v) ==> !Smaller(v, u)
    case Mismatched(u, mismatch) =>
      && InUnitOrder(supplied, units) && SoundTo(inv, membership, supplied, |supplied|)
      && (inv.complete ==> forall v :: !Lacking(membership, units, v))
      && k < |supplied| && (forall i :: 0 <= i < k ==> Genuine(inv, supplied[i])) && supplied[k].snapshot.unit == u
      && (if |supplied[k].bytes| != supplied[k].snapshot.byteLength then mismatch == ByteLength
          else inv.digestOf(supplied[k].bytes) != supplied[k].snapshot.digest && mismatch == Utf8Digest)
    case ForeignAnalysis(_) => false
  }

  ghost predicate FirstBad<G>(inv: Invocation<G>, membership: seq<Member>, units: seq<SourceUnit>,
                              supplied: seq<SourceUnit>, k: nat, u: Bytes)
  {
    && InUnitOrder(supplied, units) && k < |supplied| && SoundTo(inv, membership, supplied, k)
    && supplied[k].snapshot.unit == u
  }

  // ---- sorting and what repeats

  lemma UnitsInOrder(supplied: seq<SourceUnit>, units: seq<SourceUnit>)
    requires Sorts(units, UnitNoLater, Ok(supplied))
    ensures InUnitOrder(supplied, units)
  {
    hide CompareBytes, Tied, Sorted, Smaller;
    UnitsAreTotal();
    TiedAnyOrder(units, supplied, UnitNoLater);
    UnitOrder();
    SortedAscend(supplied, UnitNoLater, UnitOfSource);
    forall i, j | 0 <= i < j < |supplied|
      ensures Smaller(supplied[i].snapshot.unit, supplied[j].snapshot.unit)
    {
      assert CompareBytes(UnitOfSource(supplied[i]), UnitOfSource(supplied[j])) == Less;
      BytesMean(supplied[i].snapshot.unit, supplied[j].snapshot.unit);
    }
  }

  lemma MembersRepeat(membership: seq<Member>, x: Member)
    requires Sorts(membership, MemberNoLater, Err(x))
    ensures MemberTwice(membership, x.unit) && forall v :: MemberTwice(membership, v) ==> !Smaller(v, x.unit)
  {
    hide CompareBytes, MemberNoLater, Smaller;
    MembersAreTotal();
    forall v
      ensures MemberTwice(membership, v) <==> Repeated(membership, Member(v, []), MemberNoLater)
    {
    }
    assert Repeated(membership, Member(x.unit, []), MemberNoLater) by {
      var i, j :| 0 <= i < j < |membership| && Alike(membership[i], x, MemberNoLater) && Alike(membership[j], x, MemberNoLater);
      assert membership[i].unit == membership[j].unit == x.unit;
      assert MemberTwice(membership, x.unit);
    }
    forall v | MemberTwice(membership, v)
      ensures !Smaller(v, x.unit)
    {
      assert MemberNoLater(x, Member(v, []));
      MemberSmaller(x, Member(v, []));
    }
  }

  lemma MemberSmaller(a: Member, b: Member)
    ensures MemberNoLater(a, b) <==> !Smaller(b.unit, a.unit)
  {
    BytesMean(a.unit, b.unit);
  }

  lemma UnitsRepeat(units: seq<SourceUnit>, x: SourceUnit)
    requires Sorts(units, UnitNoLater, Err(x))
    ensures UnitTwice(units, x.snapshot.unit) && forall v :: UnitTwice(units, v) ==> !Smaller(v, x.snapshot.unit)
  {
    hide CompareBytes, UnitNoLater, Smaller;
    UnitsAreTotal();
    var i, j :| 0 <= i < j < |units| && Alike(units[i], x, UnitNoLater) && Alike(units[j], x, UnitNoLater);
    assert units[i].snapshot.unit == units[j].snapshot.unit == x.snapshot.unit;
    forall v | UnitTwice(units, v)
      ensures !Smaller(v, x.snapshot.unit)
    {
      var k, l :| 0 <= k < l < |units| && units[k].snapshot.unit == units[l].snapshot.unit == v;
      assert Alike(units[k], units[k], UnitNoLater) && Alike(units[l], units[k], UnitNoLater);
      assert Repeated(units, units[k], UnitNoLater);
      BytesMean(x.snapshot.unit, v);
      UnitSmaller(x, units[k]);
    }
  }

  lemma UnitSmaller(a: SourceUnit, b: SourceUnit)
    ensures UnitNoLater(a, b) <==> !Smaller(b.snapshot.unit, a.snapshot.unit)
  {
    BytesMean(a.snapshot.unit, b.snapshot.unit);
  }

  // ---- the checks of the units

  lemma OneMoreTotal(supplied: seq<SourceUnit>, k: nat)
    requires k < |supplied|
    ensures TotalBytes(supplied[..k + 1]) == TotalBytes(supplied[..k]) + |supplied[k].bytes|
  {
    hide TotalBytes, Flat;
    TotalIsFlat(supplied[..k + 1]);
    TotalIsFlat(supplied[..k]);
    FlatOneMore(BytesOf, supplied, k);
  }

  lemma NoTotal<G>(inv: Invocation<G>, membership: seq<Member>, supplied: seq<SourceUnit>)
    ensures SoundTo(inv, membership, supplied, 0) && TotalBytes(supplied[..0]) == 0
  {
  }

  /** From a place where everything before is sound, either all the rest is, or the first that is not decides. */
  lemma {:induction false} CheckedMeans<G>(inv: Invocation<G>, members: seq<Member>, supplied: seq<SourceUnit>, i: nat)
    returns (k: nat)
    requires SoundTo(inv, members, supplied, i)
    ensures var checked := Checked(inv, members, supplied[i..], SaturatingAdd(0, TotalBytes(supplied[..i])));
            && (checked.None? ==> SoundTo(inv, members, supplied, |supplied|))
            && (checked.Some? ==> k < |supplied| && SoundTo(inv, members, supplied, k))
            && (checked.Some? ==> checked == Own(inv, members, supplied[k])
                                  || (checked == Some(TotalTooLong) && Sound(inv, members, supplied[k])
                                      && !SoundTo(inv, members, supplied, k + 1)))
    decreases |supplied| - i
  {
    hide TotalBytes;
    k := i;
    if i < |supplied| {
      OneMoreTotal(supplied, i);
      assert supplied[i..][0] == supplied[i] && supplied[i..][1..] == supplied[i + 1..];
      var before := TotalBytes(supplied[..i]);
      assert SaturatingAdd(SaturatingAdd(0, before), |supplied[i].bytes|) == SaturatingAdd(0, before + |supplied[i].bytes|);
      if Own(inv, members, supplied[i]).None? && SoundTo(inv, members, supplied, i + 1) {
        k := CheckedMeans(inv, members, supplied, i + 1);
      }
    } else {
      assert supplied[..i] == supplied[..|supplied|];
    }
  }

  lemma {:induction false} MissingMeans(members: seq<Member>, supplied: seq<SourceUnit>)
    requires forall i, j :: 0 <= i < j < |members| ==> !Smaller(members[j].unit, members[i].unit)
    ensures var missing := Missing(members, supplied, UnitOfSource);
            && (missing.None? <==> forall v :: !Lacking(members, supplied, v))
            && (missing.Some? ==> missing.value.MissingMember?
                                  && Lacking(members, supplied, missing.value.unit)
                                  && forall v :: Lacking(members, supplied, v) ==> !Smaller(v, missing.value.unit))
    decreases |members|
  {
    hide Smaller;
    if members != [] {
      var u := members[0].unit;
      MissingMeans(members[1..], supplied);
      LackingFirst(members, supplied);
      if Missing(members, supplied, UnitOfSource).Some? {
        var w := Missing(members, supplied, UnitOfSource).value.unit;
        forall v | Lacking(members, supplied, v)
          ensures !Smaller(v, w)
        {
          if Holds(supplied, UnitOfSource, u) {
            assert Lacking(members[1..], supplied, v);
          } else {
            var member :| member in members && member.unit == v;
            var i :| 0 <= i < |members| && members[i] == member;
            SmallerNotSelf(u);
          }
        }
      }
    }
  }

  lemma SmallerNotSelf(u: Bytes)
    ensures !Smaller(u, u)
  {
  }

  lemma LackingFirst(members: seq<Member>, supplied: seq<SourceUnit>)
    requires members != []
    ensures Holds(supplied, UnitOfSource, members[0].unit)
       <==> exists unit :: unit in supplied && unit.snapshot.unit == members[0].unit
    ensures forall v :: Lacking(members, supplied, v)
                   <==> || Lacking(members[1..], supplied, v)
                        || (v == members[0].unit && !Holds(supplied, UnitOfSource, v))
  {
    var u := members[0].unit;
    if unit :| unit in supplied && unit.snapshot.unit == u {
      var i :| 0 <= i < |supplied| && supplied[i] == unit;
      assert UnitOfSource(supplied[i]) == u;
    }
    if i :| 0 <= i < |supplied| && UnitOfSource(supplied[i]) == u {
      assert supplied[i] in supplied;
    }
    assert members[0] in members;
    assert forall member :: member in members <==> member == members[0] || member in members[1..];
  }

  lemma {:induction false} UnverifiedMeans<G>(inv: Invocation<G>, supplied: seq<SourceUnit>, i: nat) returns (k: nat)
    requires i <= |supplied| && forall j :: 0 <= j < i ==> Genuine(inv, supplied[j])
    ensures var failure := FirstUnverified(inv, supplied[i..]);
            && (failure.None? <==> forall j :: 0 <= j < |supplied| ==> Genuine(inv, supplied[j]))
            && (failure.Some? ==> k < |supplied| && (forall j :: 0 <= j < k ==> Genuine(inv, supplied[j]))
                                  && failure == Unverified(inv, supplied[k]))
    decreases |supplied| - i
  {
    k := i;
    if i < |supplied| {
      assert supplied[i..][0] == supplied[i] && supplied[i..][1..] == supplied[i + 1..];
      if Genuine(inv, supplied[i]) {
        k := UnverifiedMeans(inv, supplied, i + 1);
      }
    }
  }

  // ---- the membership in any order

  lemma SameMembership<G>(inv: Invocation<G>, members: seq<Member>, membership: seq<Member>, supplied: seq<SourceUnit>,
                          units: seq<SourceUnit>)
    requires multiset(members) == multiset(membership) && multiset(supplied) == multiset(units)
    ensures forall k: nat :: SoundTo(inv, members, supplied, k) <==> SoundTo(inv, membership, supplied, k)
    ensures forall v :: Lacking(members, supplied, v) <==> Lacking(membership, units, v)
    ensures forall member :: member in members <==> member in membership
  {
    hide TotalBytes;
    SameElements(members, membership);
    SameElements(supplied, units);
  }

  lemma MembersInOrder(members: seq<Member>)
    requires Sorted(members, MemberNoLater)
    ensures forall i, j :: 0 <= i < j < |members| ==> !Smaller(members[j].unit, members[i].unit)
  {
    hide Smaller, MemberNoLater;
    forall i, j | 0 <= i < j < |members|
      ensures !Smaller(members[j].unit, members[i].unit)
    {
      MemberSmaller(members[i], members[j]);
    }
  }

  /** Every refusal says what is wrong with the units, of whatever is wrong first in unit order and check order. */
  lemma RefusalMeans<G>(inv: Invocation<G>, membership: seq<Member>, units: seq<SourceUnit>, failure: Failure)
    returns (supplied: seq<SourceUnit>, k: nat)
    requires Admits(inv, membership, units, Err(failure))
    ensures Means(inv, membership, units, failure, supplied, k)
  {
    hide Sorts, SoundTo, Lacking, Smaller, InUnitOrder, Checked, Missing, FirstUnverified, MemberTwice, UnitTwice;
    supplied, k := [], 0;
    if inv.refused.None? && |membership| <= inv.units && |units| <= inv.units {
      var m :| Sorts(membership, MemberNoLater, m) && AfterMembers(inv, m, units, Err(failure));
      if m.Err? {
        MembersRepeat(membership, m.error);
      } else {
        var u :| Sorts(units, UnitNoLater, u) && AfterUnits(inv, m.value, u, Err(failure));
        if u.Err? {
          UnitsRepeat(units, u.error);
        } else {
          supplied := u.value;
          UnitsInOrder(supplied, units);
          k := FailureMeans(inv, membership, units, m.value, supplied, failure);
        }
      }
    }
  }

  lemma FailureMeans<G>(inv: Invocation<G>, membership: seq<Member>, units: seq<SourceUnit>, members: seq<Member>,
                        supplied: seq<SourceUnit>, failure: Failure)
    returns (k: nat)
    requires Sorts(membership, MemberNoLater, Ok(members)) && InUnitOrder(supplied, units)
    requires FailureOf(inv, members, supplied) == Some(failure)
    ensures Means(inv, membership, units, failure, supplied, k)
  {
    hide SoundTo, Lacking, Smaller, Checked, Missing, FirstUnverified, MemberTwice, UnitTwice, TotalBytes, Tied, Sorted;
    SameMembership(inv, members, membership, supplied, units);
    MembersInOrder(members);
    NoTotal(inv, members, supplied);
    assert supplied[0..] == supplied;
    k := CheckedMeans(inv, members, supplied, 0);
    if Checked(inv, members, supplied, 0).None? {
      MissingMeans(members, supplied);
      if !(inv.complete && Missing(members, supplied, UnitOfSource).Some?) {
        k := UnverifiedMeans(inv, supplied, 0);
      }
    }
  }

  /** What is admitted of each unit, in unit order: its snapshot, its registered grammar, and its text exactly when
      its bytes are UTF-8. */
  lemma AdmittedMeans<G>(inv: Invocation<G>, membership: seq<Member>, units: seq<SourceUnit>, admitted: seq<Admitted<G>>)
    returns (supplied: seq<SourceUnit>)
    requires Admits(inv, membership, units, Ok(admitted))
    ensures InUnitOrder(supplied, units) && |admitted| == |supplied|
    ensures forall i :: 0 <= i < |supplied| ==>
              && admitted[i].snapshot == supplied[i].snapshot
              && inv.grammarOf(supplied[i].snapshot.grammar) == Some(admitted[i].grammar)
              && admitted[i].text == if inv.isUtf8(supplied[i].bytes) then Some(supplied[i].bytes) else None
  {
    hide Sorts, Smaller, InUnitOrder, Checked, Missing, FirstUnverified;
    var m :| Sorts(membership, MemberNoLater, m) && AfterMembers(inv, m, units, Ok(admitted));
    var u :| Sorts(units, UnitNoLater, u) && AfterUnits(inv, m.value, u, Ok(admitted));
    supplied := u.value;
    UnitsInOrder(supplied, units);
    assert supplied[0..] == supplied;
    var k := UnverifiedMeans(inv, supplied, 0);
    assert forall j :: 0 <= j < |supplied| ==> Genuine(inv, supplied[j]);
  }
}
