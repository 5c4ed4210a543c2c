/** Adding what automatic recognition found to the explicit forms: `merge` of
    `crates/intlify_authoring_js/src/analysis.rs`. */
module Merging {
  import opened Wrappers
  import opened SpanTree
  import opened Recognizer

  datatype Recognized<P> = Recognized(declarations: seq<Declared<P>>, uses: seq<Use<P>>)

  datatype MergeFailure = DeclarationLimit | ReferenceLimit | DeclarationOverlap

  /** Every use is of a declaration there is. */
  predicate InRange<P>(r: Recognized<P>) {
    forall k :: 0 <= k < |r.uses| ==> r.uses[k].declaration < |r.declarations|
  }

  function Ranges<P>(declarations: seq<Declared<P>>): (ranges: seq<Span>)
    ensures |ranges| == |declarations|
    ensures forall i :: 0 <= i < |ranges| ==> ranges[i] == declarations[i].occurrence
  {
    seq(|declarations|, i requires 0 <= i < |declarations| => declarations[i].occurrence)
  }

  /** One use together with the declaration it uses, wherever that is listed. */
  datatype Joined<P> = Joined(use: Use<P>, declared: Declared<P>)

  function JoinedUse<P>(r: Recognized<P>, k: nat): Joined<P>
    requires InRange(r) && k < |r.uses|
  {
    Joined(r.uses[k].(declaration := 0), r.declarations[r.uses[k].declaration])
  }

  function JoinedUses<P>(r: Recognized<P>): (joined: seq<Joined<P>>)
    requires InRange(r)
    ensures |joined| == |r.uses| && forall k :: 0 <= k < |joined| ==> joined[k] == JoinedUse(r, k)
  {
    seq(|r.uses|, k requires 0 <= k < |r.uses| => JoinedUse(r, k))
  }

  /** Add `found` to `recognized`.  The shift of its indices is right: every use still uses what it used. */
  method Merge<P>(recognized: Recognized<P>, found: Recognized<P>, declarationLimit: nat, referenceLimit: nat)
    returns (r: Result<Recognized<P>, MergeFailure>)
    requires InRange(recognized) && InRange(found)
    requires forall d :: d in recognized.declarations + found.declarations ==> d.occurrence.start <= d.occurrence.end
    ensures r.Err? <==> || |recognized.declarations| + |found.declarations| > declarationLimit
                        || |recognized.uses| + |found.uses| > referenceLimit
                        || AnyOverlap(Ranges(recognized.declarations + found.declarations))
    ensures r == Err(DeclarationLimit) <==> |recognized.declarations| + |found.declarations| > declarationLimit
    ensures r == Err(ReferenceLimit) ==> |recognized.uses| + |found.uses| > referenceLimit
    ensures r == Err(DeclarationOverlap) ==> AnyOverlap(Ranges(recognized.declarations + found.declarations))
    ensures r.Ok? ==> r.value.declarations == recognized.declarations + found.declarations
    ensures r.Ok? ==>
              && |r.value.uses| == |recognized.uses| + |found.uses|
              && (forall k :: 0 <= k < |recognized.uses| ==> r.value.uses[k] == recognized.uses[k])
              && (forall k :: 0 <= k < |found.uses| ==>
                    r.value.uses[|recognized.uses| + k]
                    == found.uses[k].(declaration := |recognized.declarations| + found.uses[k].declaration))
    ensures r.Ok? ==> InRange(r.value) && JoinedUses(r.value) == JoinedUses(recognized) + JoinedUses(found)
  {
    var offset := |recognized.declarations|;
    var declarations := recognized.declarations + found.declarations;
    if |declarations| > declarationLimit {
      return Err(DeclarationLimit);
    }
    var uses := recognized.uses;
    for k := 0 to |found.uses|
      invariant |uses| == |recognized.uses| + k
      invariant forall i :: 0 <= i < |recognized.uses| ==> uses[i] == recognized.uses[i]
      invariant forall i :: 0 <= i < k ==> uses[|recognized.uses| + i] == Shifted(found.uses[i], offset)
    {
      uses := uses + [Shifted(found.uses[k], offset)];
    }
    if |uses| > referenceLimit {
      return Err(ReferenceLimit);
    }
    var ranges := Ranges(declarations);
    assert forall i :: 0 <= i < |declarations| ==> declarations[i] in declarations;
    var overlapping := Overlapping(ranges);
    if overlapping {
      return Err(DeclarationOverlap);
    }
    r := Ok(Recognized(declarations, uses));
    KeepsUses(recognized, found, r.value);
  }

  function Shifted<P>(use: Use<P>, offset: nat): Use<P> {
    use.(declaration := use.declaration + offset)
  }

  lemma KeepsUses<P>(recognized: Recognized<P>, found: Recognized<P>, merged: Recognized<P>)
    requires InRange(recognized) && InRange(found)
    requires merged.declarations == recognized.declarations + found.declarations
    requires |merged.uses| == |recognized.uses| + |found.uses|
    requires forall i :: 0 <= i < |recognized.uses| ==> merged.uses[i] == recognized.uses[i]
    requires forall i :: 0 <= i < |found.uses| ==>
               merged.uses[|recognized.uses| + i] == Shifted(found.uses[i], |recognized.declarations|)
    ensures InRange(merged) && JoinedUses(merged) == JoinedUses(recognized) + JoinedUses(found)
  {
    var n := |recognized.uses|;
    forall k | 0 <= k < |merged.uses|
      ensures merged.uses[k].declaration < |merged.declarations|
    {
      if k >= n {
        assert merged.uses[n + (k - n)] == Shifted(found.uses[k - n], |recognized.declarations|);
      }
    }
    forall k | 0 <= k < |merged.uses|
      ensures JoinedUses(merged)[k] == (JoinedUses(recognized) + JoinedUses(found))[k]
    {
      if k >= n {
        assert merged.uses[n + (k - n)] == Shifted(found.uses[k - n], |recognized.declarations|);
      }
    }
  }
}
