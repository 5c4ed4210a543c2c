/** What `attach` decides, said of the tree: which declaration each annotation describes and what becomes of it. */
module AnnotationMeaning {
  import opened Wrappers
  import opened SpanTree
  import opened GapOrder
  import opened Ownership
  import opened Annotations

  // ---- the two facts everything is decided from

  /** `s` owns the innermost node with the span `at`. */
  ghost predicate Owns(root: Node, at: Span, s: Span) {
    exists p :: Innermost(root, p, at) && OwnedBy(root, p, s)
  }

  lemma OwnerMeans(root: Node, at: Span, s: Span)
    requires WellNested(root) && at.start < at.end && Clear(root, at)
    ensures OwnerIn(root, at) == Some(s) <==> Owns(root, at, s)
  {
    hide WellNested, Entries, LastOwner, OwnedBy, NodeAt, ValidPath, Clear, OwnerAlong;
    if OwnerIn(root, at) == Some(s) {
      var p := LastIsInnermost(root, None, at);
      assert forall q :: ValidPath(root, q) && NodeAt(root, q).span == at ==> Beside(root, None, p, q);
      assert Innermost(root, p, at);
      LastEntryOwns(root, p, at, s);
    }
    if Owns(root, at, s) {
      var p :| Innermost(root, p, at) && OwnedBy(root, p, s);
      LastEntryOwns(root, p, at, s);
    }
  }

  /** A comment precedes at most one statement. */
  lemma PrecedesOne(root: Node, comment: Span, s: Span, t: Span)
    requires WellNested(root) && comment.start < comment.end
    requires Precedes(root, comment, s) && Precedes(root, comment, t)
    ensures s == t
  {
    hide WellNested, Gaps;
    NodeTidy(root);
    KeepsApart(Gaps(root));
    var g :| g in Gaps(root) && Contains(g, comment) && g.statement == s;
    var h :| h in Gaps(root) && Contains(h, comment) && h.statement == t;
    assert g in multiset(Gaps(root)) && h in multiset(Gaps(root));
    assert g == h || Apart(g, h);
  }

  lemma PlacedMeans(root: Node, comment: Span, s: Span)
    requires WellNested(root) && comment.start < comment.end
    ensures PlacedIn(root, comment) == Some(s) <==> Precedes(root, comment, s)
  {
    hide WellNested, Precedes;
    if Precedes(root, comment, s) {
      var t := PlacedIn(root, comment).value;
      PrecedesOne(root, comment, s, t);
    }
  }

  // ---- positions with one value

  predicate OnlyAt(list: seq<Option<Span>>, s: Span, d: nat)
    requires d < |list|
  {
    list[d] == Some(s) && forall e :: 0 <= e < |list| && list[e] == Some(s) ==> e == d
  }

  predicate TwiceIn(list: seq<Option<Span>>, s: Span) {
    exists i, j :: 0 <= i < j < |list| && list[i] == Some(s) && list[j] == Some(s)
  }

  predicate Ascending(indices: seq<nat>) {
    forall k, l :: 0 <= k < l < |indices| ==> indices[k] < indices[l]
  }

  lemma AscendingOne(indices: seq<nat>, d: nat)
    requires Ascending(indices) && d in indices && forall k :: 0 <= k < |indices| ==> indices[k] == d
    ensures indices == [d]
  {
    FirstTwo(indices);
  }

  lemma FirstTwo(indices: seq<nat>)
    requires Ascending(indices)
    ensures |indices| > 1 ==> indices[0] < indices[1]
  {
  }

  lemma {:induction false} IndicesAscend(list: seq<Option<Span>>, s: Span)
    ensures Ascending(IndicesOf(list, s))
    decreases |list|
  {
    if list != [] {
      var n := |list| - 1;
      IndicesAscend(list[..n], s);
      var before := IndicesOf(list[..n], s);
      assert forall k :: 0 <= k < |before| ==> before[k] < n;
      assert Ascending(before + [n]);
    }
  }

  lemma OneIndex(list: seq<Option<Span>>, s: Span, d: nat)
    requires d < |list|
    ensures IndicesOf(list, s) == [d] <==> OnlyAt(list, s, d)
  {
    hide IndicesOf;
    var indices := IndicesOf(list, s);
    IndicesAscend(list, s);
    forall e | 0 <= e < |list|
      ensures e in indices <==> list[e] == Some(s)
    {
      IndexIn(list, s, e);
    }
    if OnlyAt(list, s, d) {
      assert d in indices;
      assert forall k :: 0 <= k < |indices| ==> list[indices[k]] == Some(s) && indices[k] == d;
      AscendingOne(indices, d);
    }
    if indices == [d] {
      assert d in indices;
    }
  }

  lemma ManyIndices(list: seq<Option<Span>>, s: Span)
    ensures |IndicesOf(list, s)| > 1 <==> TwiceIn(list, s)
  {
    hide IndicesOf;
    var indices := IndicesOf(list, s);
    IndicesAscend(list, s);
    if |indices| > 1 {
      assert indices[0] < indices[1] && list[indices[0]] == Some(s) && list[indices[1]] == Some(s);
    }
    if TwiceIn(list, s) {
      var i, j :| 0 <= i < j < |list| && list[i] == Some(s) && list[j] == Some(s);
      IndexIn(list, s, i);
      IndexIn(list, s, j);
      assert i in indices && j in indices;
    }
  }

  lemma NoIndex(list: seq<Option<Span>>, s: Span)
    ensures IndicesOf(list, s) == [] <==> forall i :: 0 <= i < |list| ==> list[i] != Some(s)
  {
    hide IndicesOf;
    var indices := IndicesOf(list, s);
    forall i | 0 <= i < |list|
      ensures i in indices <==> list[i] == Some(s)
    {
      IndexIn(list, s, i);
    }
    if indices != [] {
      assert list[indices[0]] == Some(s);
    }
  }

  // ---- the same, of the tree

  /** Of the declarations, `s` owns this one and no other. */
  ghost predicate OwnsOnly(root: Node, declared: seq<Span>, d: nat, s: Span)
    requires d < |declared|
  {
    Owns(root, declared[d], s) && forall e :: 0 <= e < |declared| && Owns(root, declared[e], s) ==> e == d
  }

  /** Of the annotations, this one precedes `s` and no other does. */
  ghost predicate PrecedesAlone<V>(root: Node, annotations: seq<Candidate<V>>, i: nat, s: Span)
    requires i < |annotations|
  {
    && Precedes(root, annotations[i].span, s)
    && forall j :: 0 <= j < |annotations| && Precedes(root, annotations[j].span, s) ==> j == i
  }

  ghost predicate PrecedeTogether<V>(root: Node, annotations: seq<Candidate<V>>, s: Span) {
    exists i, j :: 0 <= i < j < |annotations|
              && Precedes(root, annotations[i].span, s) && Precedes(root, annotations[j].span, s)
  }

  /** A unit the walk is told the truth about: nested spans, distinct declarations that no empty span and no
      overlapping sibling hides. */
  ghost predicate Proper<V>(root: Node, annotations: seq<Candidate<V>>, declared: seq<Span>) {
    && WellNested(root) && Distinct(declared)
    && (forall i :: 0 <= i < |declared| ==> declared[i].start < declared[i].end && Clear(root, declared[i]))
    && (forall i :: 0 <= i < |annotations| ==> annotations[i].span.start < annotations[i].span.end)
  }

  /** The scene is the one `attach` decides from. */
  ghost predicate Decides<V>(scene: Scene<V>, root: Node, declared: seq<Span>) {
    && scene.Valid() && Proper(root, scene.annotations, declared)
    && scene.owners == OwnersOf(root, declared) && scene.placed == PlacedOf(root, scene.annotations)
  }

  /** The scene of `Attach` is one, and what it holds of each annotation is what checking it gives. */
  lemma SceneDecides<V>(root: Node, comments: seq<Comment<V>>, declared: seq<Span>, shared: set<Span>, limit: nat,
                        reported: seq<Span>)
    requires Proper(root, Candidates(comments), declared)
    ensures var scene := SceneOf(root, comments, declared, shared, limit, reported);
            && Decides(scene, root, declared) && scene.reported == reported
            && forall i :: 0 <= i < |scene.annotations| ==>
                 scene.checked[i] == Checked(Candidates(comments)[i], limit)
  {
    hide Candidates, Proper, Checked;
    SceneShows(SceneOf(root, comments, declared, shared, limit, reported), root, comments, declared, shared, limit, reported);
  }

  lemma OwnersAre<V>(scene: Scene<V>, root: Node, declared: seq<Span>, s: Span)
    requires Decides(scene, root, declared)
    ensures |scene.owners| == |declared|
    ensures forall d :: 0 <= d < |declared| ==> (scene.owners[d] == Some(s) <==> Owns(root, declared[d], s))
  {
    hide OwnerIn, Owns, WellNested, Clear;
    forall d | 0 <= d < |declared|
      ensures scene.owners[d] == Some(s) <==> Owns(root, declared[d], s)
    {
      OwnerMeans(root, declared[d], s);
    }
  }

  lemma PlacesAre<V>(scene: Scene<V>, root: Node, declared: seq<Span>, s: Span)
    requires Decides(scene, root, declared)
    ensures |scene.placed| == |scene.annotations|
    ensures forall i :: 0 <= i < |scene.placed| ==> (scene.placed[i] == Some(s) <==> Precedes(root, scene.annotations[i].span, s))
  {
    hide PlacedIn, Precedes, WellNested;
    forall i | 0 <= i < |scene.placed|
      ensures scene.placed[i] == Some(s) <==> Precedes(root, scene.annotations[i].span, s)
    {
      PlacedMeans(root, scene.annotations[i].span, s);
    }
  }

  lemma OnlyOwned<V>(scene: Scene<V>, root: Node, declared: seq<Span>, d: nat, s: Span)
    requires Decides(scene, root, declared) && d < |declared|
    ensures |scene.owners| == |declared|
    ensures IndicesOf(scene.owners, s) == [d] <==> OwnsOnly(root, declared, d, s)
  {
    hide IndicesOf, Owns, Decides, OwnersOf;
    OwnersAre(scene, root, declared, s);
    OneIndex(scene.owners, s, d);
  }

  /** Annotation `i` stands alone before `s`, or several stand before it, or none does. */
  lemma Standing<V>(scene: Scene<V>, root: Node, declared: seq<Span>, s: Span)
    requires Decides(scene, root, declared)
    ensures |scene.placed| == |scene.annotations|
    ensures forall i :: 0 <= i < |scene.annotations| ==>
              (IndicesOf(scene.placed, s) == [i] <==> PrecedesAlone(root, scene.annotations, i, s))
    ensures |IndicesOf(scene.placed, s)| > 1 <==> PrecedeTogether(root, scene.annotations, s)
    ensures IndicesOf(scene.placed, s) == []
       <==> forall i :: 0 <= i < |scene.annotations| ==> !Precedes(root, scene.annotations[i].span, s)
  {
    hide IndicesOf, Precedes, Decides, PlacedOf;
    PlacesAre(scene, root, declared, s);
    ManyIndices(scene.placed, s);
    NoIndex(scene.placed, s);
    forall i | 0 <= i < |scene.annotations|
      ensures IndicesOf(scene.placed, s) == [i] <==> PrecedesAlone(root, scene.annotations, i, s)
    {
      OneIndex(scene.placed, s, i);
    }
  }

  // ---- what a declaration carries

  /** The note of a declaration whose owner is known. */
  lemma NoteUnder<V>(scene: Scene<V>, root: Node, declared: seq<Span>, d: nat, s: Span)
    requires Decides(scene, root, declared) && d < |declared| && OwnsOnly(root, declared, d, s)
    ensures |scene.owners| == |declared|
    ensures scene.NoteFor(d) == Absent
       <==> forall i :: 0 <= i < |scene.annotations| ==> !Precedes(root, scene.annotations[i].span, s)
    ensures PrecedeTogether(root, scene.annotations, s) ==> scene.NoteFor(d) == Rejected
    ensures forall i :: 0 <= i < |scene.annotations| && PrecedesAlone(root, scene.annotations, i, s) ==>
              scene.NoteFor(d) == if scene.checked[i].Some? then Note.Valid(scene.checked[i].value) else Rejected
  {
    hide IndicesOf, Precedes, Owns, OwnersOf, PlacedOf, WellNested, Distinct, PrecedesAlone, PrecedeTogether;
    OnlyOwned(scene, root, declared, d, s);
    Standing(scene, root, declared, s);
    assert d in IndicesOf(scene.owners, s);
    IndexIn(scene.owners, s, d);
  }

  /** A declaration whose owner owns another, or that nothing owns, carries nothing. */
  lemma NoteNowhere<V>(scene: Scene<V>, root: Node, declared: seq<Span>, d: nat)
    requires Decides(scene, root, declared) && d < |declared|
    requires forall s :: !OwnsOnly(root, declared, d, s)
    ensures |scene.owners| == |declared| && scene.NoteFor(d) == Absent
  {
    hide IndicesOf, Precedes, OwnsOnly, OwnersOf, PlacedOf, WellNested, Distinct;
    assert |scene.owners| == |declared|;
    if scene.owners[d].Some? {
      OnlyOwned(scene, root, declared, d, scene.owners[d].value);
    }
  }

  /** The annotation that gives declaration `d` its values. */
  ghost predicate Describes<V>(scene: Scene<V>, root: Node, declared: seq<Span>, i: nat, d: nat, s: Span, v: V)
    requires scene.Valid() && d < |declared| && i < |scene.annotations|
  {
    OwnsOnly(root, declared, d, s) && PrecedesAlone(root, scene.annotations, i, s) && scene.checked[i] == Some(v)
  }

  /** One statement owns `d` alone, and what precedes it is one annotation that fails its checks, or several. */
  ghost predicate Spoils<V>(scene: Scene<V>, root: Node, declared: seq<Span>, d: nat, s: Span)
    requires scene.Valid() && d < |declared|
  {
    && OwnsOnly(root, declared, d, s)
    && (|| PrecedeTogether(root, scene.annotations, s)
        || exists i :: 0 <= i < |scene.annotations| && PrecedesAlone(root, scene.annotations, i, s) && scene.checked[i] == None)
  }

  /** A declaration carries values exactly when the statement that owns it owns only it, and exactly one
      annotation precedes that statement and passes its checks with those values. */
  lemma ValidExactly<V>(scene: Scene<V>, root: Node, declared: seq<Span>, d: nat, v: V)
    requires Decides(scene, root, declared) && d < |declared|
    ensures |scene.owners| == |declared|
    ensures scene.NoteFor(d) == Note.Valid(v)
       <==> exists i, s :: 0 <= i < |scene.annotations| && Describes(scene, root, declared, i, d, s, v)
  {
    hide IndicesOf, Precedes, OwnsOnly, OwnersOf, PlacedOf, WellNested, Distinct, Scene.NoteFor, Proper;
    if s :| OwnsOnly(root, declared, d, s) {
      NoteUnder(scene, root, declared, d, s);
      OneOrMany(scene.annotations, root, s);
      if scene.NoteFor(d) == Note.Valid(v) {
        var i :| 0 <= i < |scene.annotations| && PrecedesAlone(root, scene.annotations, i, s);
        assert Describes(scene, root, declared, i, d, s, v);
      }
    } else {
      NoteNowhere(scene, root, declared, d);
    }
    if i, s :| 0 <= i < |scene.annotations| && Describes(scene, root, declared, i, d, s, v) {
      NoteUnder(scene, root, declared, d, s);
    }
  }

  lemma OneOrMany<V>(annotations: seq<Candidate<V>>, root: Node, s: Span)
    ensures || (forall i :: 0 <= i < |annotations| ==> !Precedes(root, annotations[i].span, s))
            || (exists i :: 0 <= i < |annotations| && PrecedesAlone(root, annotations, i, s))
            || PrecedeTogether(root, annotations, s)
  {
    hide Precedes;
    if i :| 0 <= i < |annotations| && Precedes(root, annotations[i].span, s) {
      if j :| 0 <= j < |annotations| && Precedes(root, annotations[j].span, s) && j != i {
        var a, b := if i < j then i else j, if i < j then j else i;
        assert Precedes(root, annotations[a].span, s) && Precedes(root, annotations[b].span, s);
      } else {
        assert PrecedesAlone(root, annotations, i, s);
      }
    }
  }

  /** A declaration is rejected exactly when it is the only one its statement owns and that statement's one
      annotation fails its checks, or several annotations precede it. */
  lemma RejectedExactly<V>(scene: Scene<V>, root: Node, declared: seq<Span>, d: nat)
    requires Decides(scene, root, declared) && d < |declared|
    ensures |scene.owners| == |declared|
    ensures scene.NoteFor(d) == Rejected <==> exists s :: Spoils(scene, root, declared, d, s)
  {
    hide IndicesOf, Precedes, OwnsOnly, OwnersOf, PlacedOf, WellNested, Distinct, Scene.NoteFor, Proper, PrecedesAlone,
      PrecedeTogether;
    if s :| OwnsOnly(root, declared, d, s) {
      NoteUnder(scene, root, declared, d, s);
      OneOrMany(scene.annotations, root, s);
      if scene.NoteFor(d) == Rejected {
        assert Spoils(scene, root, declared, d, s);
      }
    } else {
      NoteNowhere(scene, root, declared, d);
    }
    if s :| Spoils(scene, root, declared, d, s) {
      NoteUnder(scene, root, declared, d, s);
    }
  }

  /** An annotation bears on a declaration when it precedes the statement that owns only that declaration. */
  ghost predicate Reaches<V>(scene: Scene<V>, root: Node, declared: seq<Span>, i: nat, d: nat)
    requires i < |scene.annotations| && d < |declared|
  {
    exists s :: OwnsOnly(root, declared, d, s) && Precedes(root, scene.annotations[i].span, s)
  }

  /** A declaration carries something exactly when some annotation reaches it, and none reaches two. */
  lemma ReachesOne<V>(scene: Scene<V>, root: Node, declared: seq<Span>, i: nat, d: nat, e: nat)
    requires Decides(scene, root, declared) && i < |scene.annotations| && d < |declared| && e < |declared|
    requires Reaches(scene, root, declared, i, d) && Reaches(scene, root, declared, i, e)
    ensures d == e
  {
    hide Precedes, Owns, OwnersOf, PlacedOf, WellNested, Distinct;
    var comment := scene.annotations[i].span;
    var s :| OwnsOnly(root, declared, d, s) && Precedes(root, comment, s);
    var t :| OwnsOnly(root, declared, e, t) && Precedes(root, comment, t);
    PrecedesOne(root, comment, s, t);
  }

  lemma AbsentExactly<V>(scene: Scene<V>, root: Node, declared: seq<Span>, d: nat)
    requires Decides(scene, root, declared) && d < |declared|
    ensures |scene.owners| == |declared|
    ensures scene.NoteFor(d) == Absent
       <==> forall i :: 0 <= i < |scene.annotations| ==> !Reaches(scene, root, declared, i, d)
  {
    hide IndicesOf, Precedes, OwnsOnly, OwnersOf, PlacedOf, WellNested, Distinct, Scene.NoteFor, Proper, PrecedesAlone,
      PrecedeTogether;
    if s :| OwnsOnly(root, declared, d, s) {
      NoteUnder(scene, root, declared, d, s);
      if i :| 0 <= i < |scene.annotations| && Reaches(scene, root, declared, i, d) {
        var t :| OwnsOnly(root, declared, d, t) && Precedes(root, scene.annotations[i].span, t);
        NoteUnder(scene, root, declared, d, t);
      } else {
        assert forall i :: 0 <= i < |scene.annotations| && Precedes(root, scene.annotations[i].span, s) ==>
                             Reaches(scene, root, declared, i, d);
      }
    } else {
      NoteNowhere(scene, root, declared, d);
    }
  }

  // ---- what becomes of an annotation

  /** Every annotation that passes its checks either gives its values to one declaration, or is reported
      where it stands, or precedes a statement whose own contents were already reported. */
  lemma NoneForgotten<V>(scene: Scene<V>, root: Node, declared: seq<Span>, i: nat)
    requires Decides(scene, root, declared) && i < |scene.annotations|
    ensures |scene.owners| == |declared|
    ensures scene.Fate(i) == None && scene.checked[i].Some?
       ==> || (exists d, s :: 0 <= d < |declared| && Describes(scene, root, declared, i, d, s, scene.checked[i].value))
           || (exists s :: Precedes(root, scene.annotations[i].span, s) && ReportedWithin(scene.reported, s)
                       && forall d :: 0 <= d < |declared| ==> !Owns(root, declared[d], s))
  {
    hide IndicesOf, Precedes, Owns, OwnersOf, PlacedOf, WellNested, Distinct, Proper, PrecedesAlone, ReportedWithin;
    assert |scene.owners| == |declared|;
    if scene.Fate(i) == None && scene.checked[i].Some? {
      var s := scene.placed[i].value;
      Standing(scene, root, declared, s);
      PlacesAre(scene, root, declared, s);
      IndexIn(scene.placed, s, i);
      assert IndicesOf(scene.placed, s) == [i];
      if IndicesOf(scene.owners, s) == [] {
        NoIndex(scene.owners, s);
        OwnersAre(scene, root, declared, s);
      } else {
        var d := IndicesOf(scene.owners, s)[0];
        assert IndicesOf(scene.owners, s) == [d];
        OnlyOwned(scene, root, declared, d, s);
        assert Describes(scene, root, declared, i, d, s, scene.checked[i].value);
      }
    }
  }
}
