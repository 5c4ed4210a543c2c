/** Who owns what: the entries of a walk against paths through the tree. */
module Ownership {
  import opened Wrappers
  import opened SpanTree

  // ---- paths

  function Kids(node: Node): (kids: seq<Node>)
    ensures forall k :: k in kids ==> k < node
  {
    match node
    case Plain(_, children) => children
    case Barrier(_, children) => children
    case List(_, _, test, directives, members) => test + directives + members
  }

  /** Kid `i` is a member of the statement list `node` holds. */
  predicate IsMember(node: Node, i: nat) {
    node.List? && |node.test| + |node.directives| <= i < |Kids(node)|
  }

  type Path = seq<nat>

  predicate ValidPath(node: Node, p: Path)
    decreases |p|
  {
    p == [] || (p[0] < |Kids(node)| && ValidPath(Kids(node)[p[0]], p[1..]))
  }

  function NodeAt(node: Node, p: Path): Node
    requires ValidPath(node, p)
    decreases |p|
  {
    if p == [] then node else NodeAt(Kids(node)[p[0]], p[1..])
  }

  lemma {:induction false} PrefixValid(node: Node, p: Path, j: nat)
    requires ValidPath(node, p) && j <= |p|
    ensures ValidPath(node, p[..j])
    ensures j < |p| ==>
              && ValidPath(node, p[..j + 1]) && p[j] < |Kids(NodeAt(node, p[..j]))|
              && NodeAt(node, p[..j + 1]) == Kids(NodeAt(node, p[..j]))[p[j]]
    decreases j
  {
    if j > 0 {
      PrefixValid(Kids(node)[p[0]], p[1..], j - 1);
      assert p[..j][1..] == p[1..][..j - 1];
      if j < |p| {
        assert p[..j + 1][1..] == p[1..][..j];
        assert ValidPath(Kids(node)[p[0]], p[1..][..j]);
      }
    } else if |p| > 0 {
      assert p[..1][1..] == [];
    }
  }

  /** Step `j` of the path enters a member of a statement list. */
  predicate MemberStep(root: Node, p: Path, j: nat)
    requires ValidPath(root, p) && 0 < j <= |p|
  {
    PrefixValid(root, p, j - 1);
    IsMember(NodeAt(root, p[..j - 1]), p[j - 1])
  }

  /** The node after `j` steps is a function, class or namespace. */
  predicate BarrierStep(root: Node, p: Path, j: nat)
    requires ValidPath(root, p) && j <= |p|
  {
    PrefixValid(root, p, j);
    NodeAt(root, p[..j]).Barrier?
  }

  function SpanAt(root: Node, p: Path, j: nat): Span
    requires ValidPath(root, p) && j <= |p|
  {
    PrefixValid(root, p, j);
    NodeAt(root, p[..j]).span
  }

  /** `statement` is the innermost list member around the node at `p`, and no function, class or namespace is
      between them. */
  ghost predicate OwnedBy(root: Node, p: Path, statement: Span)
    requires ValidPath(root, p)
  {
    exists j :: 0 < j <= |p| && OwnedFrom(root, p, statement, j)
  }

  predicate OwnedFrom(root: Node, p: Path, statement: Span, j: nat)
    requires ValidPath(root, p) && 0 < j <= |p|
  {
    && MemberStep(root, p, j) && SpanAt(root, p, j) == statement
    && NoBarrier(root, p, j) && NoMember(root, p, j)
  }

  predicate NoBarrier(root: Node, p: Path, j: nat)
    requires ValidPath(root, p)
  {
    forall i :: j <= i <= |p| ==> !BarrierStep(root, p, i)
  }

  predicate NoMember(root: Node, p: Path, j: nat)
    requires ValidPath(root, p)
  {
    forall i :: j < i <= |p| ==> !MemberStep(root, p, i)
  }

  // ---- the context a walk carries down

  function Context(node: Node, i: nat, owner: Option<Span>): Option<Span>
    requires i < |Kids(node)|
  {
    if node.Barrier? then None else if IsMember(node, i) then Some(Kids(node)[i].span) else owner
  }

  function OwnerAlong(node: Node, p: Path, owner: Option<Span>): Option<Span>
    requires ValidPath(node, p)
    decreases |p|
  {
    if p == [] then if node.Barrier? then None else owner
    else OwnerAlong(Kids(node)[p[0]], p[1..], Context(node, p[0], owner))
  }

  /** Nothing along the path changes the owner. */
  predicate Undisturbed(root: Node, p: Path)
    requires ValidPath(root, p)
  {
    NoBarrier(root, p, 0) && NoMember(root, p, 0)
  }

  lemma StepsBelow(root: Node, p: Path, j: nat)
    requires ValidPath(root, p) && p != [] && j < |p|
    ensures BarrierStep(root, p, j + 1) == BarrierStep(Kids(root)[p[0]], p[1..], j)
    ensures SpanAt(root, p, j + 1) == SpanAt(Kids(root)[p[0]], p[1..], j)
    ensures j > 0 ==> MemberStep(root, p, j + 1) == MemberStep(Kids(root)[p[0]], p[1..], j)
  {
    PrefixValid(root, p, j + 1);
    PrefixValid(root, p, j);
    PrefixValid(Kids(root)[p[0]], p[1..], j);
    assert p[..j + 1][1..] == p[1..][..j];
    if j > 0 {
      PrefixValid(Kids(root)[p[0]], p[1..], j - 1);
      assert p[..j][1..] == p[1..][..j - 1];
    }
  }

  lemma FirstStep(root: Node, p: Path)
    requires ValidPath(root, p) && p != []
    ensures MemberStep(root, p, 1) == IsMember(root, p[0]) && BarrierStep(root, p, 0) == root.Barrier?
  {
    assert p[..0] == [];
  }

  lemma CalmBelow(root: Node, p: Path, j: nat)
    requires ValidPath(root, p) && p != []
    ensures NoBarrier(root, p, j + 1) == NoBarrier(Kids(root)[p[0]], p[1..], j)
    ensures NoMember(root, p, j + 1) == NoMember(Kids(root)[p[0]], p[1..], j)
  {
    hide BarrierStep, MemberStep;
    var kid, q := Kids(root)[p[0]], p[1..];
    forall i | j <= i < |p|
      ensures BarrierStep(root, p, i + 1) == BarrierStep(kid, q, i)
      ensures i > 0 ==> MemberStep(root, p, i + 1) == MemberStep(kid, q, i)
    {
      StepsBelow(root, p, i);
    }
    forall i | j + 1 <= i <= |p|
      ensures BarrierStep(root, p, i) == BarrierStep(kid, q, i - 1)
      ensures i > 1 ==> MemberStep(root, p, i) == MemberStep(kid, q, i - 1)
    {
      StepsBelow(root, p, i - 1);
    }
    assert forall i :: j <= i <= |q| ==> (BarrierStep(kid, q, i) <==> BarrierStep(root, p, i + 1));
    assert forall i :: j < i <= |q| ==> (MemberStep(kid, q, i) <==> MemberStep(root, p, i + 1));
  }

  lemma UndisturbedBelow(root: Node, p: Path)
    requires ValidPath(root, p) && p != []
    ensures Undisturbed(root, p)
       <==> !root.Barrier? && !IsMember(root, p[0]) && Undisturbed(Kids(root)[p[0]], p[1..])
  {
    hide BarrierStep, MemberStep, IsMember;
    FirstStep(root, p);
    CalmBelow(root, p, 0);
    assert NoBarrier(root, p, 0) <==> !BarrierStep(root, p, 0) && NoBarrier(root, p, 1);
    assert NoMember(root, p, 0) <==> !MemberStep(root, p, 1) && NoMember(root, p, 1);
  }

  lemma OwnedFromBelow(root: Node, p: Path, s: Span, j: nat)
    requires ValidPath(root, p) && 0 < j < |p|
    ensures OwnedFrom(root, p, s, j + 1) == OwnedFrom(Kids(root)[p[0]], p[1..], s, j)
  {
    hide BarrierStep, MemberStep, SpanAt, NoBarrier, NoMember;
    StepsBelow(root, p, j);
    CalmBelow(root, p, j);
  }

  lemma OwnedAtFirst(root: Node, p: Path, s: Span)
    requires ValidPath(root, p) && p != []
    ensures OwnedFrom(root, p, s, 1)
       <==> IsMember(root, p[0]) && Kids(root)[p[0]].span == s && Undisturbed(Kids(root)[p[0]], p[1..])
  {
    hide BarrierStep, MemberStep, IsMember, NoBarrier, NoMember;
    FirstStep(root, p);
    FirstSpan(root, p);
    CalmBelow(root, p, 0);
  }

  lemma FirstSpan(root: Node, p: Path)
    requires ValidPath(root, p) && p != []
    ensures SpanAt(root, p, 1) == Kids(root)[p[0]].span
  {
    StepsBelow(root, p, 0);
    assert p[1..][..0] == [];
  }

  lemma OwnedBelow(root: Node, p: Path, s: Span)
    requires ValidPath(root, p) && p != []
    ensures OwnedBy(root, p, s)
       <==> || OwnedBy(Kids(root)[p[0]], p[1..], s)
            || (IsMember(root, p[0]) && Kids(root)[p[0]].span == s && Undisturbed(Kids(root)[p[0]], p[1..]))
  {
    hide OwnedFrom, Undisturbed, IsMember;
    var kid, q := Kids(root)[p[0]], p[1..];
    OwnedAtFirst(root, p, s);
    if OwnedBy(root, p, s) {
      var j :| 0 < j <= |p| && OwnedFrom(root, p, s, j);
      if j > 1 {
        OwnedFromBelow(root, p, s, j - 1);
        assert OwnedFrom(kid, q, s, j - 1);
      }
    }
    if OwnedBy(kid, q, s) {
      var j :| 0 < j <= |q| && OwnedFrom(kid, q, s, j);
      OwnedFromBelow(root, p, s, j);
      assert OwnedFrom(root, p, s, j + 1);
    }
  }

  /** What a walk carries down the path is the innermost list member with no barrier in between. */
  lemma {:induction false} OwnerAlongMeans(root: Node, p: Path, owner: Option<Span>, s: Span)
    requires ValidPath(root, p)
    ensures OwnerAlong(root, p, owner) == Some(s)
       <==> OwnedBy(root, p, s) || (owner == Some(s) && Undisturbed(root, p))
    decreases |p|
  {
    if p == [] {
      assert p[..0] == [];
      assert Undisturbed(root, p) <==> !BarrierStep(root, p, 0);
      assert !OwnedBy(root, p, s);
    } else {
      hide OwnedBy, Undisturbed;
      UndisturbedBelow(root, p);
      OwnedBelow(root, p, s);
      OwnerAlongMeans(Kids(root)[p[0]], p[1..], Context(root, p[0], owner), s);
    }
  }

  // ---- entries by kid

  /** The entries of kids `i` and on. */
  function KidEntries(node: Node, owner: Option<Span>, i: nat): seq<Entry>
    requires i <= |Kids(node)|
    decreases |Kids(node)| - i
  {
    if i == |Kids(node)| then []
    else Entries(Kids(node)[i], Context(node, i, owner)) + KidEntries(node, owner, i + 1)
  }

  lemma {:induction false} SameContext(node: Node, owner: Option<Span>, carried: Option<Span>, i: nat, nodes: seq<Node>, rest: nat)
    requires i + |nodes| == rest <= |Kids(node)| && Kids(node)[i..rest] == nodes
    requires forall k :: i <= k < rest ==> Context(node, k, owner) == carried
    ensures KidEntries(node, owner, i) == AllEntries(nodes, carried) + KidEntries(node, owner, rest)
    decreases |nodes|
  {
    hide Context, Entries, Kids;
    if nodes == [] {
    } else {
      assert Kids(node)[i] == Kids(node)[i..rest][0] == nodes[0];
      assert Kids(node)[i + 1..rest] == nodes[1..];
      SameContext(node, owner, carried, i + 1, nodes[1..], rest);
    }
  }

  lemma MemberUnfold(node: Node, owner: Option<Span>, i: nat, members: seq<Node>)
    requires node.List? && |node.test| + |node.directives| <= i && i + |members| == |Kids(node)|
    requires Kids(node)[i..] == members
    ensures members == [] ==> KidEntries(node, owner, i) == MemberEntries(members) == []
    ensures members != [] ==>
              && Kids(node)[i + 1..] == members[1..]
              && MemberEntries(members) == Entries(members[0], Some(members[0].span)) + MemberEntries(members[1..])
              && KidEntries(node, owner, i)
                 == Entries(members[0], Some(members[0].span)) + KidEntries(node, owner, i + 1)
  {
    hide Entries;
    assert members != [] ==> Kids(node)[i] == Kids(node)[i..][0];
  }

  lemma {:induction false} MemberContext(node: Node, owner: Option<Span>, i: nat, members: seq<Node>)
    requires node.List? && |node.test| + |node.directives| <= i && i + |members| == |Kids(node)|
    requires Kids(node)[i..] == members
    ensures KidEntries(node, owner, i) == MemberEntries(members)
    decreases |members|
  {
    hide *;
    MemberUnfold(node, owner, i, members);
    if members != [] {
      MemberContext(node, owner, i + 1, members[1..]);
    }
  }

  function Self(node: Node, owner: Option<Span>): Option<Span> {
    if node.Barrier? then None else owner
  }

  lemma EntriesByKid(node: Node, owner: Option<Span>)
    ensures Entries(node, owner) == [Entry(node.span, Self(node, owner))] + KidEntries(node, owner, 0)
  {
    match node
    case Plain(_, children) =>
      SameContext(node, owner, owner, 0, children, |children|);
    case Barrier(_, children) =>
      SameContext(node, owner, None, 0, children, |children|);
    case List(_, _, test, directives, members) =>
      var a, b := |test|, |test| + |directives|;
      ListKids(node);
      SameContext(node, owner, owner, 0, test, a);
      SameContext(node, owner, owner, a, directives, b);
      MemberContext(node, owner, b, members);
  }

  lemma ListKids(node: Node)
    requires node.List?
    ensures var a, b := |node.test|, |node.test| + |node.directives|;
            && |Kids(node)| == b + |node.members|
            && Kids(node)[0..a] == node.test && Kids(node)[a..b] == node.directives && Kids(node)[b..] == node.members
  {
  }

  // ---- well-nestedness by kid

  lemma {:induction false} OrderedKids(nodes: seq<Node>, low: nat, high: nat, i: nat, j: nat)
    requires InOrder(nodes, low, high) && i < |nodes| && j < |nodes|
    ensures low <= nodes[i].span.start <= nodes[i].span.end <= high
    ensures i < j ==> nodes[i].span.end <= nodes[j].span.start
    decreases |nodes|
  {
    if i > 0 && j > 0 {
      OrderedKids(nodes[1..], nodes[0].span.end, high, i - 1, j - 1);
    } else if i > 0 {
      OrderedKids(nodes[1..], nodes[0].span.end, high, i - 1, i - 1);
    } else if j > 0 {
      OrderedKids(nodes[1..], nodes[0].span.end, high, j - 1, j - 1);
    } else {
      InOrderEnds(nodes[1..], nodes[0].span.end, high);
    }
  }

  lemma {:induction false} InOrderEnds(nodes: seq<Node>, low: nat, high: nat)
    requires InOrder(nodes, low, high)
    ensures low <= high
    decreases |nodes|
  {
    if nodes != [] {
      InOrderEnds(nodes[1..], nodes[0].span.end, high);
    }
  }

  lemma {:induction false} EachWellNested(nodes: seq<Node>, i: nat)
    requires AllWellNested(nodes) && i < |nodes|
    ensures WellNested(nodes[i])
    decreases |nodes|
  {
    if i > 0 {
      EachWellNested(nodes[1..], i - 1);
    }
  }

  /** Siblings that share source, of which one at least is a leaf and neither is a member of a list. */
  predicate Shared(node: Node, i: nat, j: nat)
    requires i < |Kids(node)| && j < |Kids(node)|
  {
    (Leaf(Kids(node)[i]) || Leaf(Kids(node)[j])) && !IsMember(node, i) && !IsMember(node, j)
  }

  lemma WellNestedKids(node: Node, i: nat, j: nat)
    requires WellNested(node) && i < |Kids(node)| && j < |Kids(node)|
    ensures WellNested(Kids(node)[i])
    ensures node.span.start <= Kids(node)[i].span.start <= Kids(node)[i].span.end <= node.span.end
    ensures i != j ==> Disjoint(Kids(node)[i].span, Kids(node)[j].span) || Shared(node, i, j)
  {
    if node.List? {
      ListNested(node, i, j);
    } else {
      EachWellNested(node.children, i);
      ScatteredKids(node.children, node.span.start, node.span.end, i, j);
    }
  }

  lemma ScatteredKids(nodes: seq<Node>, low: nat, high: nat, i: nat, j: nat)
    requires Scattered(nodes, low, high) && i < |nodes| && j < |nodes|
    ensures low <= nodes[i].span.start <= nodes[i].span.end <= high
    ensures i != j ==> Disjoint(nodes[i].span, nodes[j].span) || Leaf(nodes[i]) || Leaf(nodes[j])
  {
    if j < i {
      assert Disjoint(nodes[j].span, nodes[i].span) || Leaf(nodes[j]) || Leaf(nodes[i]);
    }
  }

  lemma ListNested(node: Node, i: nat, j: nat)
    requires node.List? && WellNested(node) && i < |Kids(node)| && j < |Kids(node)|
    ensures WellNested(Kids(node)[i])
    ensures node.span.start <= Kids(node)[i].span.start <= Kids(node)[i].span.end <= node.span.end
    ensures i != j ==> Disjoint(Kids(node)[i].span, Kids(node)[j].span) || Shared(node, i, j)
  {
    hide InOrder, Scattered;
    var t, rest := node.test, node.directives + node.members;
    var n := |t|;
    assert Kids(node) == t + rest;
    ListBounds(node);
    KidInside(node, i);
    KidInside(node, j);
    if i < n {
      EachWellNested(t, i);
      if j < n {
        ScatteredKids(t, node.span.start, node.opens, i, j);
      }
    } else {
      if i < n + |node.directives| {
        EachWellNested(node.directives, i - n);
      } else {
        EachWellNested(node.members, i - n - |node.directives|);
      }
      if n <= j {
        OrderedKids(rest, node.opens, node.span.end, i - n, j - n);
        OrderedKids(rest, node.opens, node.span.end, j - n, i - n);
      }
    }
  }

  lemma ListBounds(node: Node)
    requires node.List? && WellNested(node)
    ensures node.span.start <= node.opens <= node.span.end
  {
    hide InOrder;
    InOrderEnds(node.directives + node.members, node.opens, node.span.end);
  }

  /** A test lies before its list opens, and an item after. */
  lemma KidInside(node: Node, i: nat)
    requires node.List? && WellNested(node) && i < |Kids(node)|
    ensures Kids(node)[i].span.start <= Kids(node)[i].span.end
    ensures i < |node.test| ==> node.span.start <= Kids(node)[i].span.start && Kids(node)[i].span.end <= node.opens
    ensures i >= |node.test| ==> node.opens <= Kids(node)[i].span.start && Kids(node)[i].span.end <= node.span.end
  {
    hide InOrder, Scattered;
    var t, rest := node.test, node.directives + node.members;
    assert Kids(node) == t + rest;
    if i < |t| {
      ScatteredKids(t, node.span.start, node.opens, i, i);
    } else {
      OrderedKids(rest, node.opens, node.span.end, i - |t|, i - |t|);
    }
  }

  // ---- the last entry with a span

  /** The owner the last entry at `at` names, if any entry is there. */
  function LastOwner(entries: seq<Entry>, at: Span): Option<Option<Span>>
    decreases |entries|
  {
    if entries == [] then None
    else if entries[|entries| - 1].at == at then Some(entries[|entries| - 1].owner)
    else LastOwner(entries[..|entries| - 1], at)
  }

  lemma {:induction false} LastOwnerConcat(a: seq<Entry>, b: seq<Entry>, at: Span)
    ensures LastOwner(a + b, at) == if LastOwner(b, at).Some? then LastOwner(b, at) else LastOwner(a, at)
    decreases |b|
  {
    if b == [] {
      assert a + b == a;
    } else {
      var n := |b| - 1;
      assert (a + b)[..|a + b| - 1] == a + b[..n] && (a + b)[|a + b| - 1] == b[n];
      LastOwnerConcat(a, b[..n], at);
    }
  }

  /** Everything a walk of `node` enters lies within it, so a span outside it is never entered. */
  lemma {:induction false} EntriesWithin(node: Node, owner: Option<Span>, at: Span)
    requires WellNested(node) && LastOwner(Entries(node, owner), at).Some?
    ensures node.span.start <= at.start && at.end <= node.span.end
    decreases node, 0, 0
  {
    hide WellNested, Kids, Entries, LastOwner, Context;
    EntriesByKid(node, owner);
    LastOwnerConcat([Entry(node.span, Self(node, owner))], KidEntries(node, owner, 0), at);
    OneEntry(Entry(node.span, Self(node, owner)), at);
    if LastOwner(KidEntries(node, owner, 0), at).Some? {
      var i := LastKid(node, owner, 0, at);
      WellNestedKids(node, i, i);
      assert Kids(node)[i] in Kids(node);
      EntriesWithin(Kids(node)[i], Context(node, i, owner), at);
    }
  }

  lemma OneEntry(entry: Entry, at: Span)
    ensures LastOwner([entry], at) == if entry.at == at then Some(entry.owner) else None
  {
    assert [entry][..0] == [];
  }

  /** The last entry among the kids is the last entry of one of them. */
  lemma {:induction false} LastKid(node: Node, owner: Option<Span>, from: nat, at: Span) returns (i: nat)
    requires from <= |Kids(node)| && LastOwner(KidEntries(node, owner, from), at).Some?
    ensures from <= i < |Kids(node)|
    ensures LastOwner(Entries(Kids(node)[i], Context(node, i, owner)), at) == LastOwner(KidEntries(node, owner, from), at)
    decreases |Kids(node)| - from
  {
    hide Kids, Entries, Context;
    LastOwnerConcat(Entries(Kids(node)[from], Context(node, from, owner)), KidEntries(node, owner, from + 1), at);
    if LastOwner(KidEntries(node, owner, from + 1), at).Some? {
      i := LastKid(node, owner, from + 1, at);
    } else {
      i := from;
    }
  }

  lemma {:induction false} KidEntered(node: Node, owner: Option<Span>, from: nat, i: nat, at: Span)
    requires from <= i < |Kids(node)|
    requires LastOwner(Entries(Kids(node)[i], Context(node, i, owner)), at).Some?
    ensures LastOwner(KidEntries(node, owner, from), at).Some?
    decreases i - from
  {
    hide Kids, Entries, Context;
    LastOwnerConcat(Entries(Kids(node)[from], Context(node, from, owner)), KidEntries(node, owner, from + 1), at);
    if from < i {
      KidEntered(node, owner, from + 1, i, at);
    }
  }

  /** Every node of the tree is entered. */
  lemma {:induction false} PathEntered(node: Node, owner: Option<Span>, p: Path)
    requires ValidPath(node, p)
    ensures LastOwner(Entries(node, owner), NodeAt(node, p).span).Some?
    decreases |p|
  {
    hide Kids, Entries, LastOwner, Context;
    var at := NodeAt(node, p).span;
    EntriesByKid(node, owner);
    LastOwnerConcat([Entry(node.span, Self(node, owner))], KidEntries(node, owner, 0), at);
    if p == [] {
      OneEntry(Entry(node.span, Self(node, owner)), at);
    } else {
      PathEntered(Kids(node)[p[0]], Context(node, p[0], owner), p[1..]);
      KidEntered(node, owner, 0, p[0], at);
    }
  }

  /** No leaf with this span shares source with a sibling that has anything in it. */
  predicate Clear(node: Node, at: Span)
    decreases node
  {
    && (forall i, j :: 0 <= i < |Kids(node)| && 0 <= j < |Kids(node)| && i != j ==> ClearOf(Kids(node)[i], Kids(node)[j], at))
    && (forall kid :: kid in Kids(node) ==> Clear(kid, at))
  }

  predicate ClearOf(leaf: Node, sibling: Node, at: Span) {
    Leaf(leaf) && leaf.span == at ==> Disjoint(leaf.span, sibling.span) || Leaf(sibling)
  }

  /** Another path to a node with the same span: a way to an ancestor, or to a leaf beside it with the same owner. */
  predicate Beside(node: Node, owner: Option<Span>, p: Path, q: Path)
    requires ValidPath(node, p) && ValidPath(node, q)
  {
    q <= p || (|q| == |p| && OwnerAlong(node, q, owner) == OwnerAlong(node, p, owner))
  }

  /** The last entry at a nonempty span is made at an innermost node with that span: every other node with
      it is an ancestor, or a leaf beside it with the same owner. */
  lemma {:induction false} LastIsInnermost(node: Node, owner: Option<Span>, at: Span) returns (p: Path)
    requires WellNested(node) && at.start < at.end && Clear(node, at) && LastOwner(Entries(node, owner), at).Some?
    ensures ValidPath(node, p) && NodeAt(node, p).span == at
    ensures LastOwner(Entries(node, owner), at) == Some(OwnerAlong(node, p, owner))
    ensures forall q :: ValidPath(node, q) && NodeAt(node, q).span == at ==> Beside(node, owner, p, q)
    decreases node
  {
    hide WellNested, Kids, Entries, LastOwner, Context, Beside, ClearOf;
    EntriesByKid(node, owner);
    LastOwnerConcat([Entry(node.span, Self(node, owner))], KidEntries(node, owner, 0), at);
    OneEntry(Entry(node.span, Self(node, owner)), at);
    if LastOwner(KidEntries(node, owner, 0), at).Some? {
      var i := LastKid(node, owner, 0, at);
      var kid := Kids(node)[i];
      WellNestedKids(node, i, i);
      assert kid in Kids(node);
      var below := LastIsInnermost(kid, Context(node, i, owner), at);
      p := [i] + below;
      assert p[1..] == below;
      forall q | ValidPath(node, q) && NodeAt(node, q).span == at
        ensures Beside(node, owner, p, q)
      {
        OnlyThisKid(node, owner, i, at, q);
        BesideBelow(node, owner, i, at, below, q);
      }
    } else {
      p := [];
      forall q | ValidPath(node, q) && NodeAt(node, q).span == at
        ensures Beside(node, owner, p, q)
      {
        if q != [] {
          PathEntered(Kids(node)[q[0]], Context(node, q[0], owner), q[1..]);
          KidEntered(node, owner, 0, q[0], at);
        }
        NoneBeside(node, owner, q);
      }
    }
  }

  lemma NoneBeside(node: Node, owner: Option<Span>, q: Path)
    requires q == []
    ensures ValidPath(node, q) && Beside(node, owner, [], q)
  {
  }

  /** Two leaves with one span, members of no list. */
  predicate TwinLeaves(node: Node, i: nat, j: nat, at: Span) {
    && i < |Kids(node)| && j < |Kids(node)| && Leaf(Kids(node)[i]) && Leaf(Kids(node)[j])
    && Kids(node)[i].span == at && Kids(node)[j].span == at && !IsMember(node, i) && !IsMember(node, j)
  }

  lemma BesideBelow(node: Node, owner: Option<Span>, i: nat, at: Span, below: Path, q: Path)
    requires i < |Kids(node)| && ValidPath(node, q) && ValidPath(Kids(node)[i], below)
    requires || q == [] || (q[0] == i && ValidPath(Kids(node)[i], q[1..])
                            && Beside(Kids(node)[i], Context(node, i, owner), below, q[1..]))
             || (|q| == 1 && TwinLeaves(node, i, q[0], at))
    ensures ValidPath(node, [i] + below) && Beside(node, owner, [i] + below, q)
  {
    var p := [i] + below;
    assert p[1..] == below;
    if q != [] && q[0] == i {
      assert q == [i] + q[1..];
    } else if q != [] {
      assert Kids(Kids(node)[i]) == [] && below == [];
      assert q[1..] == [];
    }
  }

  lemma LeafEntry(node: Node, owner: Option<Span>, at: Span)
    requires Leaf(node) && LastOwner(Entries(node, owner), at).Some?
    ensures node.span == at
  {
    assert AllEntries(node.children, owner) == [];
    assert Entries(node, owner) == [Entry(node.span, owner)];
    OneEntry(Entry(node.span, owner), at);
  }

  lemma LeafPath(node: Node, q: Path)
    requires Leaf(node) && ValidPath(node, q)
    ensures q == [] && NodeAt(node, q) == node
  {
  }

  /** A nonempty span entered in one kid is in another only when both are leaves. */
  lemma OnlyThisKid(node: Node, owner: Option<Span>, i: nat, at: Span, q: Path)
    requires WellNested(node) && at.start < at.end && Clear(node, at) && i < |Kids(node)|
    requires ValidPath(node, q) && NodeAt(node, q).span == at
    requires LastOwner(Entries(Kids(node)[i], Context(node, i, owner)), at).Some?
    ensures || q == [] || (q[0] == i && ValidPath(Kids(node)[i], q[1..]) && NodeAt(Kids(node)[i], q[1..]).span == at)
            || (|q| == 1 && TwinLeaves(node, i, q[0], at))
  {
    hide WellNested, Kids, Entries, LastOwner, Context, IsMember;
    if q != [] && q[0] != i {
      var j := q[0];
      var x, y := Kids(node)[i], Kids(node)[j];
      PathEntered(y, Context(node, j, owner), q[1..]);
      WellNestedKids(node, i, j);
      WellNestedKids(node, j, i);
      EntriesWithin(x, Context(node, i, owner), at);
      EntriesWithin(y, Context(node, j, owner), at);
      assert ClearOf(x, y, at) && ClearOf(y, x, at);
      if Leaf(x) {
        LeafEntry(x, Context(node, i, owner), at);
      }
      if Leaf(y) {
        LeafPath(y, q[1..]);
      }
    }
  }

  /** The innermost node with a span: no node below it has the same one. */
  ghost predicate Innermost(root: Node, p: Path, at: Span) {
    && ValidPath(root, p) && NodeAt(root, p).span == at
    && forall q :: ValidPath(root, q) && NodeAt(root, q).span == at && p <= q ==> q == p
  }

  /** What the last entry at a span says is who owns the innermost node with that span. */
  lemma LastEntryOwns(root: Node, p: Path, at: Span, s: Span)
    requires WellNested(root) && at.start < at.end && Clear(root, at) && Innermost(root, p, at)
    ensures LastOwner(Entries(root, None), at).Some?
    ensures LastOwner(Entries(root, None), at) == Some(Some(s)) <==> OwnedBy(root, p, s)
  {
    hide WellNested, Entries, LastOwner, OwnedBy, OwnerAlong, NodeAt, Clear;
    PathEntered(root, None, p);
    var q := LastIsInnermost(root, None, at);
    assert Beside(root, None, q, p);
    OwnerAlongMeans(root, p, None, s);
  }
}
