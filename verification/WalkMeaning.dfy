/** What one walk meets, said of paths through the tree: each place an annotation can be, and each node entered
    with the statement that owns it. */
module WalkMeaning {
  import opened Wrappers
  import opened SpanTree
  import opened Ownership
  import opened Placement
  import opened Annotations
  import GapOrder

  // ---- places

  /** The statements of a list, its directives first. */
  function Items(node: Node): (items: seq<Span>)
    requires node.List?
    ensures |items| == |node.directives| + |node.members|
  {
    SpansOf(node.directives) + SpansOf(node.members)
  }

  /** The source before one statement of a list, after the statement before it or where the list opens. */
  function PlaceBefore(previous: nat, items: seq<Span>, k: nat): Gap
    requires k < |items|
  {
    Gap(if k == 0 then previous else items[k - 1].end, items[k].start, items[k])
  }

  predicate IsPlace(previous: nat, items: seq<Span>, g: Gap) {
    exists k :: 0 <= k < |items| && g == PlaceBefore(previous, items, k)
  }

  predicate HasPlace(node: Node, g: Gap) {
    node.List? && IsPlace(node.opens, Items(node), g)
  }

  lemma PlacesUnfold(previous: nat, items: seq<Span>, g: Gap)
    requires items != []
    ensures IsPlace(previous, items, g)
       <==> g == Gap(previous, items[0].start, items[0]) || IsPlace(items[0].end, items[1..], g)
  {
    var rest := items[1..];
    if IsPlace(previous, items, g) {
      var k :| 0 <= k < |items| && g == PlaceBefore(previous, items, k);
      if k > 0 {
        assert g == PlaceBefore(items[0].end, rest, k - 1);
      }
    }
    assert PlaceBefore(previous, items, 0) == Gap(previous, items[0].start, items[0]);
    if IsPlace(items[0].end, rest, g) {
      var k :| 0 <= k < |rest| && g == PlaceBefore(items[0].end, rest, k);
      assert g == PlaceBefore(previous, items, k + 1);
    }
  }

  lemma {:induction false} PlacesSplit(previous: nat, a: seq<Span>, b: seq<Span>, g: Gap)
    ensures IsPlace(previous, a + b, g) <==> IsPlace(previous, a, g) || IsPlace(AfterAll(previous, a), b, g)
    decreases |a|
  {
    hide IsPlace;
    if a == [] {
      assert a + b == b;
      NoPlaces(previous, g);
    } else {
      assert (a + b)[0] == a[0] && (a + b)[1..] == a[1..] + b;
      PlacesUnfold(previous, a + b, g);
      PlacesUnfold(previous, a, g);
      PlacesSplit(a[0].end, a[1..], b, g);
    }
  }

  lemma NoPlaces(previous: nat, g: Gap)
    ensures !IsPlace(previous, [], g)
  {
  }

  lemma {:induction false} DirectivePlaces(previous: nat, items: seq<Span>, g: Gap)
    ensures g in DirectiveGaps(previous, items) <==> IsPlace(previous, items, g)
    decreases |items|
  {
    hide IsPlace;
    if items == [] {
      NoPlaces(previous, g);
    } else {
      PlacesUnfold(previous, items, g);
      DirectivePlaces(items[0].end, items[1..], g);
    }
  }

  predicate InSome(nodes: seq<Node>, g: Gap) {
    exists i :: 0 <= i < |nodes| && g in Gaps(nodes[i])
  }

  lemma SomeUnfold(nodes: seq<Node>, g: Gap)
    requires nodes != []
    ensures InSome(nodes, g) <==> g in Gaps(nodes[0]) || InSome(nodes[1..], g)
  {
    hide Gaps;
    if i :| 0 <= i < |nodes| && g in Gaps(nodes[i]) {
      assert i == 0 || nodes[i] == nodes[1..][i - 1];
    }
    if i :| 0 <= i < |nodes[1..]| && g in Gaps(nodes[1..][i]) {
      assert nodes[i + 1] == nodes[1..][i];
    }
  }

  lemma {:induction false} SomeSplit(a: seq<Node>, b: seq<Node>, g: Gap)
    ensures InSome(a + b, g) <==> InSome(a, g) || InSome(b, g)
    decreases |a|
  {
    hide InSome;
    if a == [] {
      assert a + b == b;
      InNone(g);
    } else {
      assert (a + b)[0] == a[0] && (a + b)[1..] == a[1..] + b;
      SomeUnfold(a + b, g);
      SomeUnfold(a, g);
      SomeSplit(a[1..], b, g);
    }
  }

  lemma InNone(g: Gap)
    ensures !InSome([], g)
  {
  }

  lemma {:induction false} InAll(nodes: seq<Node>, g: Gap)
    ensures g in AllGaps(nodes) <==> InSome(nodes, g)
    decreases |nodes|
  {
    hide InSome, Gaps;
    if nodes == [] {
      InNone(g);
    } else {
      SomeUnfold(nodes, g);
      InAll(nodes[1..], g);
    }
  }

  lemma {:induction false} MemberPlaces(previous: nat, members: seq<Node>, g: Gap)
    ensures g in MemberGaps(previous, members) <==> IsPlace(previous, SpansOf(members), g) || InSome(members, g)
    decreases |members|
  {
    hide InSome, IsPlace, Gaps;
    var items := SpansOf(members);
    if members == [] {
      InNone(g);
      NoPlaces(previous, g);
      assert items == [];
    } else {
      assert items[1..] == SpansOf(members[1..]);
      SomeUnfold(members, g);
      PlacesUnfold(previous, items, g);
      MemberPlaces(members[0].span.end, members[1..], g);
    }
  }

  /** A node's gaps are its own places and the gaps of its kids. */
  lemma NodePlaces(node: Node, g: Gap)
    ensures g in Gaps(node) <==> HasPlace(node, g) || InSome(Kids(node), g)
  {
    hide InSome, IsPlace, DirectiveGaps, MemberGaps, AllGaps;
    match node
    case Plain(_, children) => InAll(children, g);
    case Barrier(_, children) => InAll(children, g);
    case List(_, opens, test, directives, members) =>
      var spans := SpansOf(directives);
      InAll(test, g);
      InAll(directives, g);
      DirectivePlaces(opens, spans, g);
      MemberPlaces(AfterAll(opens, spans), members, g);
      PlacesSplit(opens, spans, SpansOf(members), g);
      SomeSplit(test, directives, g);
      SomeSplit(test + directives, members, g);
  }

  /** The node at `p` is a statement list with the place `g`. */
  predicate PlaceAt(root: Node, p: Path, g: Gap) {
    ValidPath(root, p) && HasPlace(NodeAt(root, p), g)
  }

  lemma PlaceBelow(root: Node, p: Path, g: Gap)
    ensures p == [] ==> (PlaceAt(root, p, g) <==> HasPlace(root, g))
    ensures p != [] ==> (PlaceAt(root, p, g) <==> p[0] < |Kids(root)| && PlaceAt(Kids(root)[p[0]], p[1..], g))
  {
    hide HasPlace, Kids;
  }

  /** The gaps of a tree are exactly the places of its statement lists, wherever in the tree they are. */
  lemma {:induction false} GapsArePlaces(root: Node, g: Gap)
    ensures g in Gaps(root) <==> exists p :: PlaceAt(root, p, g)
    decreases root
  {
    hide HasPlace, Kids, Gaps, PlaceAt;
    NodePlaces(root, g);
    if g in Gaps(root) {
      if HasPlace(root, g) {
        PlaceBelow(root, [], g);
      } else {
        var i :| 0 <= i < |Kids(root)| && g in Gaps(Kids(root)[i]);
        assert Kids(root)[i] in Kids(root);
        GapsArePlaces(Kids(root)[i], g);
        var q :| PlaceAt(Kids(root)[i], q, g);
        PlaceBelow(root, [i] + q, g);
        assert ([i] + q)[1..] == q;
      }
    }
    if p :| PlaceAt(root, p, g) {
      PlaceBelow(root, p, g);
      if p != [] {
        var kid := Kids(root)[p[0]];
        assert kid in Kids(root);
        GapsArePlaces(kid, g);
      }
    }
  }

  lemma StepInto(root: Node, i: nat, q: Path)
    requires i < |Kids(root)| && ValidPath(Kids(root)[i], q)
    ensures ValidPath(root, [i] + q) && NodeAt(root, [i] + q) == NodeAt(Kids(root)[i], q)
    ensures forall owner :: OwnerAlong(root, [i] + q, owner) == OwnerAlong(Kids(root)[i], q, Context(root, i, owner))
  {
    assert ([i] + q)[1..] == q;
  }

  /** A comment precedes a statement when it lies in the source right before it in some statement list. */
  lemma PrecedesMeans(root: Node, comment: Span, s: Span)
    ensures Precedes(root, comment, s)
       <==> exists p :: BeforeAt(root, p, comment, s)
  {
    hide Gaps, HasPlace, RightBefore, NodeAt, ValidPath;
    if Precedes(root, comment, s) {
      var g :| g in Gaps(root) && GapOrder.Contains(g, comment) && g.statement == s;
      GapsArePlaces(root, g);
      var p :| PlaceAt(root, p, g);
      PlaceIsBefore(NodeAt(root, p), comment, s);
      assert BeforeAt(root, p, comment, s);
    }
    if p :| BeforeAt(root, p, comment, s) {
      PlaceIsBefore(NodeAt(root, p), comment, s);
      var g :| HasPlace(NodeAt(root, p), g) && GapOrder.Contains(g, comment) && g.statement == s;
      assert PlaceAt(root, p, g);
      GapsArePlaces(root, g);
    }
  }

  /** The node at `p` is a statement list in which the comment lies right before `s`. */
  predicate BeforeAt(root: Node, p: Path, comment: Span, s: Span) {
    ValidPath(root, p) && RightBefore(NodeAt(root, p), comment, s)
  }

  /** `s` is some item of the list, and the comment lies after the item before it and ends before it starts. */
  predicate RightBefore(node: Node, comment: Span, s: Span) {
    node.List? && exists k :: 0 <= k < |Items(node)| && BeforeItem(node.opens, Items(node), k, comment, s)
  }

  predicate BeforeItem(opens: nat, items: seq<Span>, k: nat, comment: Span, s: Span)
    requires k < |items|
  {
    && items[k] == s && comment.end <= s.start
    && if k == 0 then opens <= comment.start else items[k - 1].end <= comment.start
  }

  lemma PlaceIsBefore(node: Node, comment: Span, s: Span)
    ensures RightBefore(node, comment, s)
       <==> exists g :: HasPlace(node, g) && GapOrder.Contains(g, comment) && g.statement == s
  {
    hide Items;
    if RightBefore(node, comment, s) {
      var items := Items(node);
      var k :| 0 <= k < |items| && BeforeItem(node.opens, items, k, comment, s);
      assert HasPlace(node, PlaceBefore(node.opens, items, k));
    }
    if g :| HasPlace(node, g) && GapOrder.Contains(g, comment) && g.statement == s {
      var items := Items(node);
      var k :| 0 <= k < |items| && g == PlaceBefore(node.opens, items, k);
      assert BeforeItem(node.opens, items, k, comment, s);
    }
  }

  // ---- entries

  predicate EnteredIn(node: Node, owner: Option<Span>, i: nat, e: Entry)
    requires i < |Kids(node)|
  {
    e in Entries(Kids(node)[i], Context(node, i, owner))
  }

  lemma FirstKid(node: Node, owner: Option<Span>, from: nat, e: Entry)
    requires from <= |Kids(node)|
    ensures from == |Kids(node)| ==> e !in KidEntries(node, owner, from)
    ensures from < |Kids(node)| ==>
              (e in KidEntries(node, owner, from) <==> EnteredIn(node, owner, from, e) || e in KidEntries(node, owner, from + 1))
  {
    hide Kids, Entries, Context;
  }

  lemma {:induction false} KidsEntered(node: Node, owner: Option<Span>, from: nat, e: Entry)
    requires from <= |Kids(node)|
    ensures e in KidEntries(node, owner, from) <==> exists i :: from <= i < |Kids(node)| && EnteredIn(node, owner, i, e)
    decreases |Kids(node)| - from
  {
    hide *;
    FirstKid(node, owner, from, e);
    if from < |Kids(node)| {
      KidsEntered(node, owner, from + 1, e);
    }
  }

  /** The entry made for the node at `p`. */
  ghost predicate EntryAt(node: Node, owner: Option<Span>, p: Path, e: Entry) {
    ValidPath(node, p) && e == Entry(NodeAt(node, p).span, OwnerAlong(node, p, owner))
  }

  lemma {:induction false} EntriesArePaths(node: Node, owner: Option<Span>, e: Entry)
    ensures e in Entries(node, owner) <==> exists p :: EntryAt(node, owner, p, e)
    decreases node
  {
    hide Kids, Entries, Context, KidEntries;
    EntriesByKid(node, owner);
    KidsEntered(node, owner, 0, e);
    if e in Entries(node, owner) {
      if e == Entry(node.span, Self(node, owner)) {
        assert EntryAt(node, owner, [], e);
      } else {
        var i :| 0 <= i < |Kids(node)| && EnteredIn(node, owner, i, e);
        assert Kids(node)[i] in Kids(node);
        EntriesArePaths(Kids(node)[i], Context(node, i, owner), e);
        var q :| EntryAt(Kids(node)[i], Context(node, i, owner), q, e);
        StepInto(node, i, q);
        assert EntryAt(node, owner, [i] + q, e);
      }
    }
    if p :| EntryAt(node, owner, p, e) {
      if p != [] {
        var kid := Kids(node)[p[0]];
        assert kid in Kids(node);
        assert EntryAt(kid, Context(node, p[0], owner), p[1..], e);
        EntriesArePaths(kid, Context(node, p[0], owner), e);
        assert EnteredIn(node, owner, p[0], e);
      }
    }
  }

  lemma {:induction false} UsesAre(shared: set<Span>, entries: seq<Entry>, s: Span)
    ensures s in UsesIn(shared, entries) <==> exists e :: e in entries && e.at in shared && e.owner == Some(s)
    decreases |entries|
  {
    if entries != [] {
      UsesAre(shared, entries[1..], s);
    }
  }

  /** A statement uses a shared declaration when it owns some node with the span of such a use. */
  lemma UsesMean(root: Node, shared: set<Span>, s: Span)
    ensures s in UsesIn(shared, Entries(root, None))
       <==> exists p :: ValidPath(root, p) && NodeAt(root, p).span in shared && OwnedBy(root, p, s)
  {
    hide Entries, UsesIn, OwnedBy, OwnerAlong, NodeAt, ValidPath, Undisturbed;
    UsesAre(shared, Entries(root, None), s);
    if e :| e in Entries(root, None) && e.at in shared && e.owner == Some(s) {
      EntriesArePaths(root, None, e);
      var p :| EntryAt(root, None, p, e);
      OwnerAlongMeans(root, p, None, s);
    }
    if p :| ValidPath(root, p) && NodeAt(root, p).span in shared && OwnedBy(root, p, s) {
      OwnerAlongMeans(root, p, None, s);
      var e := Entry(NodeAt(root, p).span, Some(s));
      assert EntryAt(root, None, p, e);
      EntriesArePaths(root, None, e);
    }
  }
}
