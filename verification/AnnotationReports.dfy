/** What `attach` says and leaves, of comments, sizes and the tree alone: which declaration carries which values,
    and every record made, in the order it is made. */
module AnnotationReports {
  import opened Wrappers
  import opened SpanTree
  import opened Ownership
  import opened Placement
  import opened Reports
  import opened Annotations
  import opened AnnotationMeaning
  import opened Pieces
  import WalkMeaning

  // ---- reading comments

  ghost predicate FormReport<V>(comment: Comment<V>, piece: seq<Record<Detail>>) {
    && (piece == [Record(CommentForm, comment.span)] <==> comment.reading == Misspelled)
    && (piece == [] <==> comment.reading != Misspelled)
  }

  ghost predicate FormsCut<V>(comments: seq<Comment<V>>, records: seq<Record<Detail>>, at: seq<nat>) {
    var n := |comments|;
    Cuts(records, at, n) && forall i :: 0 <= i < n ==> FormReport(comments[i], Piece(records, at, n, i))
  }

  ghost predicate ReadAs<V>(comment: Comment<V>, piece: seq<Candidate<V>>) {
    match comment.reading
    case Marked(json) => piece == [Candidate(comment.span, json)]
    case Misspelled => piece == []
    case Ordinary => piece == []
  }

  ghost predicate CandidatesCut<V>(comments: seq<Comment<V>>, annotations: seq<Candidate<V>>, at: seq<nat>) {
    var n := |comments|;
    Cuts(annotations, at, n) && forall i :: 0 <= i < n ==> ReadAs(comments[i], Piece(annotations, at, n, i))
  }

  /** Comment by comment, the misspelled ones are reported. */
  lemma {:induction false} FormsExactly<V>(comments: seq<Comment<V>>) returns (at: seq<nat>)
    ensures FormsCut(comments, FormRecords(comments), at)
  {
    hide Cuts;
    if comments == [] {
      NoPieces(FormRecords(comments));
      at := [0];
    } else {
      var n := |comments| - 1;
      at := FormsExactly(comments[..n]);
      at := OnePieceMore(FormRecords(comments[..n]), at, n,
                         if comments[n].reading.Misspelled? then [Record(CommentForm, comments[n].span)] else []);
    }
  }

  /** Comment by comment, the marked ones are the annotations. */
  lemma {:induction false} CandidatesExactly<V>(comments: seq<Comment<V>>) returns (at: seq<nat>)
    ensures CandidatesCut(comments, Candidates(comments), at)
  {
    hide Cuts;
    if comments == [] {
      NoPieces(Candidates(comments));
      at := [0];
    } else {
      var n := |comments| - 1;
      at := CandidatesExactly(comments[..n]);
      at := OnePieceMore(Candidates(comments[..n]), at, n,
                         if comments[n].reading.Marked? then [Candidate(comments[n].span, comments[n].reading.json)] else []);
    }
  }

  // ---- checking annotations

  ghost predicate CheckReport<V>(annotation: Candidate<V>, limit: nat, piece: seq<Record<Detail>>) {
    var Candidate(span, json) := annotation;
    && (piece == [Record(AnnotationBytes, span)] <==> span.end - span.start > limit)
    && (forall code: nat :: piece == [Record(BadMetadata(code), span)] <==> span.end - span.start <= limit && json == Err(code))
    && (piece == [] <==> span.end - span.start <= limit && json.Ok?)
  }

  ghost predicate ChecksCut<V>(annotations: seq<Candidate<V>>, limit: nat, records: seq<Record<Detail>>, at: seq<nat>) {
    var n := |annotations|;
    Cuts(records, at, n) && forall i :: 0 <= i < n ==> CheckReport(annotations[i], limit, Piece(records, at, n, i))
  }

  lemma CheckMeans<V>(annotation: Candidate<V>, limit: nat)
    ensures var detail := CheckDetail(annotation, limit);
            CheckReport(annotation, limit, if detail.Some? then [Record(detail.value, annotation.span)] else [])
  {
  }

  /** Annotation by annotation, one that is too long is reported for that alone, and one that is not for its JSON. */
  lemma {:induction false} ChecksExactly<V>(annotations: seq<Candidate<V>>, limit: nat) returns (at: seq<nat>)
    ensures ChecksCut(annotations, limit, CheckRecords(annotations, limit), at)
  {
    hide Cuts, CheckReport, CheckDetail, CheckRecords;
    if annotations == [] {
      CheckNone(annotations, limit);
      NoPieces(CheckRecords(annotations, limit));
      at := [0];
    } else {
      var n := |annotations| - 1;
      at := ChecksExactly(annotations[..n], limit);
      CheckMeans(annotations[n], limit);
      CheckOneMore(annotations, limit, n);
      assert annotations[..n + 1] == annotations;
      var detail := CheckDetail(annotations[n], limit);
      at := OnePieceMore(CheckRecords(annotations[..n], limit), at, n,
                         if detail.Some? then [Record(detail.value, annotations[n].span)] else []);
    }
  }

  // ---- what a declaration carries

  /** Annotation `i` is short enough and holds `v`, and it alone precedes the statement that owns only `d`. */
  ghost predicate Gives<V>(root: Node, annotations: seq<Candidate<V>>, declared: seq<Span>, limit: nat,
                           i: nat, d: nat, s: Span, v: V)
    requires d < |declared|
  {
    && i < |annotations| && OwnsOnly(root, declared, d, s) && PrecedesAlone(root, annotations, i, s)
    && annotations[i].span.end - annotations[i].span.start <= limit && annotations[i].json == Ok(v)
  }

  /** The statement that owns only `d` is preceded by several annotations, or by one that is too long or does not
      hold any values. */
  ghost predicate Denies<V>(root: Node, annotations: seq<Candidate<V>>, declared: seq<Span>, limit: nat, d: nat, s: Span)
    requires d < |declared|
  {
    && OwnsOnly(root, declared, d, s)
    && (|| PrecedeTogether(root, annotations, s)
        || exists i :: 0 <= i < |annotations| && PrecedesAlone(root, annotations, i, s)
                  && (annotations[i].span.end - annotations[i].span.start > limit || annotations[i].json.Err?))
  }

  lemma NotesExactly<V>(root: Node, comments: seq<Comment<V>>, declared: seq<Span>, shared: set<Span>, limit: nat,
                        reported: seq<Span>, d: nat, v: V)
    requires Proper(root, Candidates(comments), declared) && d < |declared|
    ensures var scene := SceneOf(root, comments, declared, shared, limit, reported);
            var annotations := Candidates(comments);
            && |scene.owners| == |declared|
            && (scene.NoteFor(d) == Note.Valid(v) <==> exists i: nat, s :: Gives(root, annotations, declared, limit, i, d, s, v))
            && (scene.NoteFor(d) == Rejected <==> exists s :: Denies(root, annotations, declared, limit, d, s))
  {
    hide OwnsOnly, PrecedesAlone, PrecedeTogether, Candidates, Proper, Scene.NoteFor, OwnersOf, PlacedOf;
    SceneDecides(root, comments, declared, shared, limit, reported);
    var scene := SceneOf(root, comments, declared, shared, limit, reported);
    var annotations := Candidates(comments);
    SceneShows(scene, root, comments, declared, shared, limit, reported);
    ValidExactly(scene, root, declared, d, v);
    RejectedExactly(scene, root, declared, d);
    forall i: nat, s
      ensures Gives(root, annotations, declared, limit, i, d, s, v)
         <==> i < |annotations| && Describes(scene, root, declared, i, d, s, v)
    {
    }
    forall s
      ensures Denies(root, annotations, declared, limit, d, s) <==> Spoils(scene, root, declared, d, s)
    {
    }
  }

  // ---- what an annotation is told

  ghost predicate OwnsNone(root: Node, declared: seq<Span>, s: Span) {
    forall d :: 0 <= d < |declared| ==> !Owns(root, declared[d], s)
  }

  ghost predicate OwnsSeveral(root: Node, declared: seq<Span>, s: Span) {
    exists d, e :: 0 <= d < e < |declared| && Owns(root, declared[d], s) && Owns(root, declared[e], s)
  }

  /** The statement owns a node with the span of a shared use. */
  ghost predicate SharesUse(root: Node, shared: set<Span>, s: Span) {
    exists p :: ValidPath(root, p) && NodeAt(root, p).span in shared && OwnedBy(root, p, s)
  }

  predicate HoldsReport(reported: seq<Span>, s: Span) {
    exists i :: 0 <= i < |reported| && s.start <= reported[i].start && reported[i].end <= s.end
  }

  datatype Unit<V> = Unit(root: Node, annotations: seq<Candidate<V>>, declared: seq<Span>, shared: set<Span>, reported: seq<Span>)
  {
    ghost predicate MatchedBy(scene: Scene<V>) {
      && Decides(scene, root, declared) && scene.annotations == annotations
      && scene.using == UsesIn(shared, Entries(root, None)) && scene.reported == reported
    }

    ghost predicate Nowhere(i: nat)
      requires i < |annotations|
    {
      forall s :: !Precedes(root, annotations[i].span, s)
    }

    ghost predicate Together(i: nat)
      requires i < |annotations|
    {
      exists s, j :: 0 <= j < |annotations| && j != i
                     && Precedes(root, annotations[i].span, s) && Precedes(root, annotations[j].span, s)
    }

    ghost predicate ForUse(i: nat)
      requires i < |annotations|
    {
      exists s :: PrecedesAlone(root, annotations, i, s) && OwnsNone(root, declared, s) && SharesUse(root, shared, s)
    }

    ghost predicate ForNothing(i: nat)
      requires i < |annotations|
    {
      exists s :: PrecedesAlone(root, annotations, i, s) && OwnsNone(root, declared, s) && !SharesUse(root, shared, s)
                  && !HoldsReport(reported, s)
    }

    ghost predicate ForSeveral(i: nat)
      requires i < |annotations|
    {
      exists s :: PrecedesAlone(root, annotations, i, s) && OwnsSeveral(root, declared, s)
    }

    /** The annotation describes one declaration, or stands before a statement whose contents were reported already. */
    ghost predicate Quiet(i: nat)
      requires i < |annotations|
    {
      exists s :: PrecedesAlone(root, annotations, i, s)
                  && (|| (exists d :: 0 <= d < |declared| && OwnsOnly(root, declared, d, s))
                      || (OwnsNone(root, declared, s) && !SharesUse(root, shared, s) && HoldsReport(reported, s)))
    }

    /** What is reported of annotation `i`, and when. */
    ghost predicate Told(i: nat, piece: seq<Record<Detail>>)
      requires i < |annotations|
    {
      var span := annotations[i].span;
      && (piece == [Record(Misplaced, span)] <==> Nowhere(i))
      && (piece == [Record(Repeated, span)] <==> Together(i))
      && (piece == [Record(TargetReference, span)] <==> ForUse(i))
      && (piece == [Record(TargetAbsent, span)] <==> ForNothing(i))
      && (piece == [Record(TargetAmbiguous, span)] <==> ForSeveral(i))
      && (piece == [] <==> Quiet(i))
    }

    lemma TargetMeans(scene: Scene<V>, s: Span)
      requires MatchedBy(scene)
      ensures scene.Target(s) == if OwnsSeveral(root, declared, s) then Some(TargetAmbiguous)
                                 else if !OwnsNone(root, declared, s) then None
                                 else if SharesUse(root, shared, s) then Some(TargetReference)
                                 else if HoldsReport(reported, s) then None
                                 else Some(TargetAbsent)
      ensures OwnsNone(root, declared, s) || OwnsSeveral(root, declared, s)
              || exists d :: 0 <= d < |declared| && OwnsOnly(root, declared, d, s)
      ensures forall d :: 0 <= d < |declared| && OwnsOnly(root, declared, d, s) ==>
                !OwnsNone(root, declared, s) && !OwnsSeveral(root, declared, s)
      ensures !(OwnsNone(root, declared, s) && OwnsSeveral(root, declared, s))
    {
      hide IndicesOf, Owns, UsesIn, Entries, SharesUse, Decides;
      OwnersAre(scene, root, declared, s);
      ManyIndices(scene.owners, s);
      NoIndex(scene.owners, s);
      scene.TargetIs(s);
      WalkMeaning.UsesMean(root, shared, s);
      SharesUseIs(s);
      if d :| 0 <= d < |declared| && Owns(root, declared[d], s) {
        if e :| 0 <= e < |declared| && Owns(root, declared[e], s) && e != d {
          var a, b := if d < e then d else e, if d < e then e else d;
          assert Owns(root, declared[a], s) && Owns(root, declared[b], s);
        } else {
          assert OwnsOnly(root, declared, d, s);
        }
      }
    }

    lemma SharesUseIs(s: Span)
      ensures SharesUse(root, shared, s)
         <==> exists p :: ValidPath(root, p) && NodeAt(root, p).span in shared && OwnedBy(root, p, s)
    {
    }

    /** Whether an annotation is alone before its statement. */
    lemma PlaceMeans(scene: Scene<V>, i: nat)
      requires MatchedBy(scene) && i < |annotations|
      ensures |scene.placed| == |annotations|
      ensures scene.placed[i].None? <==> Nowhere(i)
      ensures forall s :: Precedes(root, annotations[i].span, s) <==> scene.placed[i] == Some(s)
      ensures scene.placed[i].Some? ==>
                var s := scene.placed[i].value;
                && (|IndicesOf(scene.placed, s)| > 1 <==> Together(i))
                && (|IndicesOf(scene.placed, s)| <= 1 <==> PrecedesAlone(root, annotations, i, s))
    {
      hide IndicesOf, Precedes, Decides;
      PlacesAre(scene, root, declared, annotations[i].span);
      forall s
        ensures scene.placed[i] == Some(s) <==> Precedes(root, annotations[i].span, s)
      {
        PlacesAre(scene, root, declared, s);
      }
      if scene.placed[i].Some? {
        var s := scene.placed[i].value;
        assert Precedes(root, annotations[i].span, s);
        Standing(scene, root, declared, s);
        PlacesAre(scene, root, declared, s);
        if j :| 0 <= j < |annotations| && j != i && Precedes(root, annotations[j].span, s) {
          var a, b := if i < j then i else j, if i < j then j else i;
          assert Precedes(root, annotations[a].span, s) && Precedes(root, annotations[b].span, s);
        } else {
          assert PrecedesAlone(root, annotations, i, s);
        }
      }
    }

    lemma FateMeans(scene: Scene<V>, i: nat)
      requires MatchedBy(scene) && i < |annotations|
      ensures Told(i, scene.RecordsAt(i))
    {
      hide IndicesOf, Precedes, Decides, OwnsNone, OwnsSeveral, SharesUse, HoldsReport, OwnsOnly, Scene.Target, Nowhere, Together;
      PlaceMeans(scene, i);
      if scene.placed[i].Some? {
        var s := scene.placed[i].value;
        TargetMeans(scene, s);
        forall t
          ensures PrecedesAlone(root, annotations, i, t) ==> t == s
          ensures PrecedesAlone(root, annotations, i, t) <==> t == s && PrecedesAlone(root, annotations, i, s)
        {
          assert Precedes(root, annotations[i].span, t) <==> scene.placed[i] == Some(t);
        }
      } else {
        NobodyAlone(i);
      }
    }

    lemma NobodyAlone(i: nat)
      requires i < |annotations| && Nowhere(i)
      ensures forall s :: !PrecedesAlone(root, annotations, i, s)
      ensures !Together(i)
    {
    }

    // ---- in what order it is told

    ghost predicate MisplacedCut(records: seq<Record<Detail>>, at: seq<nat>, n: nat) {
      && n <= |annotations| && Cuts(records, at, n)
      && forall i :: 0 <= i < n ==>
           Piece(records, at, n, i) == if Nowhere(i) then [Record(Misplaced, annotations[i].span)] else []
    }

    /** The reports of the annotations before `s` among the first `n`. */
    ghost predicate BeforeCut(s: Span, records: seq<Record<Detail>>, at: seq<nat>, n: nat) {
      && n <= |annotations| && Cuts(records, at, n)
      && forall i :: 0 <= i < n ==>
           if Precedes(root, annotations[i].span, s) then Told(i, Piece(records, at, n, i)) else Piece(records, at, n, i) == []
    }

    ghost predicate AllBefore(s: Span, records: seq<Record<Detail>>) {
      exists at :: BeforeCut(s, records, at, |annotations|)
    }

    ghost predicate StatementsCut(statements: seq<Span>, records: seq<Record<Detail>>, at: seq<nat>) {
      var n := |statements|;
      Cuts(records, at, n) && forall k :: 0 <= k < n ==> AllBefore(statements[k], Piece(records, at, n, k))
    }

    /** The statements some annotation precedes, strictly in order of start and then of end. */
    ghost predicate Statements(statements: seq<Span>) {
      && (forall i, j :: 0 <= i < j < |statements| ==>
            || statements[i].start < statements[j].start
            || (statements[i].start == statements[j].start && statements[i].end < statements[j].end))
      && forall s :: s in statements <==> exists i :: 0 <= i < |annotations| && Precedes(root, annotations[i].span, s)
    }

    lemma {:induction false} MisplacedExactly(scene: Scene<V>, n: nat) returns (at: seq<nat>)
      requires MatchedBy(scene) && n <= |annotations|
      ensures scene.Valid() && n <= |scene.placed| && MisplacedCut(scene.Misplacements(n), at, n)
    {
      hide Cuts, Nowhere, Decides, Told, IndicesOf, Scene.Misplacements, Scene.RecordsAt;
      MatchedIs(scene);
      if n == 0 {
        scene.PlacingNone();
        NoPieces(scene.Misplacements(n));
        at := [0];
      } else {
        at := MisplacedExactly(scene, n - 1);
        PlaceMeans(scene, n - 1);
        scene.PlacingMore(n - 1);
        at := OnePieceMore(scene.Misplacements(n - 1), at, n - 1,
                           if scene.placed[n - 1].None? then [Record(Misplaced, annotations[n - 1].span)] else []);
      }
    }

    lemma MatchedIs(scene: Scene<V>)
      requires MatchedBy(scene)
      ensures scene.Valid() && |scene.placed| == |annotations|
    {
    }

    lemma {:induction false} BeforeExactly(scene: Scene<V>, s: Span, n: nat) returns (at: seq<nat>)
      requires MatchedBy(scene) && n <= |annotations|
      ensures scene.Valid() && n <= |scene.placed| && scene.InScene(IndicesOf(scene.placed[..n], s))
      ensures BeforeCut(s, scene.GroupRecords(IndicesOf(scene.placed[..n], s)), at, n)
    {
      hide Cuts, Nowhere, Decides, Told, IndicesOf, Precedes, Scene.RecordsAt, Scene.GroupRecords;
      MatchedIs(scene);
      if n == 0 {
        IndicesOneMore(scene.placed, s, 0);
        scene.GroupNone([]);
        NoPieces(scene.GroupRecords([]));
        at := [0];
      } else {
        at := BeforeExactly(scene, s, n - 1);
        FateMeans(scene, n - 1);
        PlaceMeans(scene, n - 1);
        IndicesOneMore(scene.placed, s, n);
        var group := IndicesOf(scene.placed[..n - 1], s);
        if scene.placed[n - 1] == Some(s) {
          scene.GroupOneMore(group, n - 1);
          at := OnePieceMore(scene.GroupRecords(group), at, n - 1, scene.RecordsAt(n - 1));
        } else {
          at := OnePieceMore(scene.GroupRecords(group), at, n - 1, []);
          assert scene.GroupRecords(group) + [] == scene.GroupRecords(group);
        }
      }
    }

    lemma {:induction false} StatementsExactly(scene: Scene<V>, statements: seq<Span>) returns (at: seq<nat>)
      requires MatchedBy(scene)
      ensures scene.Valid() && StatementsCut(statements, scene.SettledRecords(statements), at)
    {
      hide Cuts, Decides, Told, IndicesOf, BeforeCut, Scene.GroupRecords;
      MatchedIs(scene);
      if statements == [] {
        NoPieces(scene.SettledRecords(statements));
        at := [0];
      } else {
        var n := |statements| - 1;
        at := StatementsExactly(scene, statements[..n]);
        assert scene.placed[..|annotations|] == scene.placed;
        var cut := BeforeExactly(scene, statements[n], |annotations|);
        at := OnePieceMore(scene.SettledRecords(statements[..n]), at, n,
                           scene.GroupRecords(IndicesOf(scene.placed, statements[n])));
      }
    }

    lemma OrderMeans(scene: Scene<V>, statements: seq<Span>)
      requires MatchedBy(scene) && scene.SettlingOrder(statements)
      ensures Statements(statements)
    {
      hide IndicesOf, Precedes, Decides;
      forall s
        ensures s in statements <==> exists i :: 0 <= i < |annotations| && Precedes(root, annotations[i].span, s)
      {
        Standing(scene, root, declared, s);
      }
    }

    /** What the step says after reading and checking: first what precedes nothing, then statement by statement. */
    ghost predicate Says(records: seq<Record<Detail>>) {
      exists misplaced, settled, statements, at, cut ::
        && records == misplaced + settled && MisplacedCut(misplaced, at, |annotations|)
        && Statements(statements) && StatementsCut(statements, settled, cut)
    }
  }

  /** Everything `attach` says, in order, when it succeeds. */
  lemma AttachSays<V>(root: Node, comments: seq<Comment<V>>, declared: seq<Span>, shared: set<Span>, limit: nat,
                      reported: seq<Span>, notes: seq<Note<V>>, base: seq<Record<Detail>>, records: seq<Record<Detail>>)
    returns (said: seq<Record<Detail>>)
    requires Proper(root, Candidates(comments), declared)
    requires var scene := SceneOf(root, comments, declared, shared, limit, reported);
             Attached(scene, notes, base, records)
    ensures records == base + said && Unit(root, Candidates(comments), declared, shared, reported).Says(said)
  {
    hide Scene.Misplacements, Scene.SettledRecords, Scene.SettlingOrder, Scene.NoteFor, Candidates, Unit.MisplacedCut,
      Unit.StatementsCut, Unit.Statements, Proper, OwnersOf, PlacedOf, Entries, UsesIn, CheckedAll;
    var unit := Unit(root, Candidates(comments), declared, shared, reported);
    var scene := SceneOf(root, comments, declared, shared, limit, reported);
    SceneDecides(root, comments, declared, shared, limit, reported);
    SceneShows(scene, root, comments, declared, shared, limit, reported);
    var statements :| scene.SettlingOrder(statements)
                      && records == base + scene.Misplacements(|scene.placed|) + scene.SettledRecords(statements);
    unit.MatchedIs(scene);
    var at := unit.MisplacedExactly(scene, |scene.placed|);
    var cut := unit.StatementsExactly(scene, statements);
    unit.OrderMeans(scene, statements);
    var misplaced, settled := scene.Misplacements(|scene.placed|), scene.SettledRecords(statements);
    said := misplaced + settled;
  }
}
