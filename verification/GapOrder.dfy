/** The gaps of a well-nested tree never overlap, so a comment lies in at most one of them. */
module GapOrder {
  import opened Wrappers
  import opened SpanTree
  import opened Sorting

  /** Two stretches of source that share no interior byte, and neither lies inside the other. */
  predicate Apart(g: Gap, h: Gap) {
    g.end <= h.start || h.end <= g.start
  }

  ghost predicate PairwiseApart(gaps: seq<Gap>) {
    forall i, j :: 0 <= i < j < |gaps| ==> Apart(gaps[i], gaps[j])
  }

  predicate Within(gaps: seq<Gap>, low: nat, high: nat) {
    forall i :: 0 <= i < |gaps| ==> low <= gaps[i].start <= gaps[i].end <= high
  }

  ghost predicate Tidy(gaps: seq<Gap>, low: nat, high: nat) {
    low <= high && Within(gaps, low, high) && PairwiseApart(gaps)
  }

  lemma TidyConcat(a: seq<Gap>, b: seq<Gap>, low: nat, middle: nat, high: nat)
    requires Tidy(a, low, middle) && Tidy(b, middle, high)
    ensures Tidy(a + b, low, high)
  {
    var all := a + b;
    forall i, j | 0 <= i < j < |all|
      ensures Apart(all[i], all[j])
    {
      if i < |a| <= j {
        assert all[i] == a[i] && all[j] == b[j - |a|];
      }
    }
  }

  lemma TidyOne(g: Gap)
    requires g.start <= g.end
    ensures Tidy([g], g.start, g.end)
  {
  }

  lemma {:induction false} InOrderSplit(a: seq<Node>, b: seq<Node>, low: nat, high: nat)
    requires InOrder(a + b, low, high)
    ensures InOrder(a, low, AfterAll(low, SpansOf(a))) && InOrder(b, AfterAll(low, SpansOf(a)), high)
    decreases |a|
  {
    if a == [] {
      assert a + b == b;
    } else {
      assert (a + b)[0] == a[0] && (a + b)[1..] == a[1..] + b;
      InOrderSplit(a[1..], b, a[0].span.end, high);
    }
  }

  lemma {:induction false} NodeTidy(node: Node)
    requires WellNested(node)
    ensures Tidy(Gaps(node), node.span.start, node.span.end)
    decreases node, 0
  {
    hide PairwiseApart, Within;
    match node
    case Plain(span, children) => AllTidy(children, span.start, span.end);
    case Barrier(span, children) => AllTidy(children, span.start, span.end);
    case List(span, opens, test, directives, members) =>
      var spans := SpansOf(directives);
      var after := AfterAll(opens, spans);
      InOrderSplit(directives, members, opens, span.end);
      AllTidy(test, span.start, opens);
      NoGapsInDirectives(directives);
      DirectivesTidy(directives, opens);
      MembersTidy(members, after, span.end);
      TidyConcat(AllGaps(test), DirectiveGaps(opens, spans), span.start, opens, after);
      TidyConcat(AllGaps(test) + DirectiveGaps(opens, spans), MemberGaps(after, members), span.start, after, span.end);
      assert AllGaps(test) + [] == AllGaps(test);
  }

  lemma {:induction false} AllTidy(nodes: seq<Node>, low: nat, high: nat)
    requires Scattered(nodes, low, high) && AllWellNested(nodes)
    ensures Tidy(AllGaps(nodes), low, high)
    decreases nodes
  {
    if nodes == [] {
    } else {
      hide PairwiseApart, Gaps, Within;
      var at := nodes[0].span;
      NodeTidy(nodes[0]);
      ScatteredTail(nodes, low, high);
      AllTidy(nodes[1..], low, high);
      Widen(Gaps(nodes[0]), at.start, at.end, low);
      Stretch(Gaps(nodes[0]), low, at.end, high);
      forall g, h | g in Gaps(nodes[0]) && h in AllGaps(nodes[1..])
        ensures Apart(g, h)
      {
        var k := GapFrom(nodes[1..], h);
        assert nodes[1..][k] == nodes[k + 1];
        GapInside(nodes[0], g);
      }
      TidyUnion(Gaps(nodes[0]), AllGaps(nodes[1..]), low, high);
    }
  }

  lemma ScatteredTail(nodes: seq<Node>, low: nat, high: nat)
    requires nodes != [] && Scattered(nodes, low, high)
    ensures Scattered(nodes[1..], low, high)
  {
    var rest := nodes[1..];
    forall i, j | 0 <= i < j < |rest|
      ensures Disjoint(rest[i].span, rest[j].span) || Leaf(rest[i]) || Leaf(rest[j])
    {
      assert rest[i] == nodes[i + 1] && rest[j] == nodes[j + 1];
    }
  }

  /** A gap lies within the node it is found in, which is no leaf. */
  lemma {:induction false} GapInside(node: Node, g: Gap)
    requires WellNested(node) && g in Gaps(node)
    ensures node.span.start <= g.start <= g.end <= node.span.end && !Leaf(node)
    decreases node, 1
  {
    hide WellNested;
    NodeTidy(node);
    assert Leaf(node) ==> Gaps(node) == [];
  }

  lemma {:induction false} GapFrom(nodes: seq<Node>, g: Gap) returns (k: nat)
    requires AllWellNested(nodes) && g in AllGaps(nodes)
    ensures k < |nodes| && nodes[k].span.start <= g.start <= g.end <= nodes[k].span.end && !Leaf(nodes[k])
    decreases nodes
  {
    hide WellNested, Gaps;
    if g in Gaps(nodes[0]) {
      GapInside(nodes[0], g);
      k := 0;
    } else {
      k := GapFrom(nodes[1..], g);
      k := k + 1;
    }
  }

  lemma TidyUnion(a: seq<Gap>, b: seq<Gap>, low: nat, high: nat)
    requires Tidy(a, low, high) && Tidy(b, low, high) && forall g, h :: g in a && h in b ==> Apart(g, h)
    ensures Tidy(a + b, low, high)
  {
    var all := a + b;
    forall i, j | 0 <= i < j < |all|
      ensures Apart(all[i], all[j])
    {
      if i < |a| <= j {
        assert all[i] == a[i] && all[j] == b[j - |a|];
      }
    }
  }

  lemma Widen(gaps: seq<Gap>, low: nat, high: nat, lower: nat)
    requires Tidy(gaps, low, high) && lower <= low
    ensures Tidy(gaps, lower, high)
  {
  }

  lemma {:induction false} NoGapsInDirectives(directives: seq<Node>)
    requires forall d :: d in directives ==> IsDirective(d)
    ensures AllGaps(directives) == []
  {
    if directives != [] {
      var d := directives[0];
      assert d in directives;
      var literal := d.children[0];
      assert d.children == [literal] && d.children[1..] == [];
      assert Gaps(literal) == [] && AllGaps(d.children) == Gaps(literal) + AllGaps([]);
      assert Gaps(d) == [];
      NoGapsInDirectives(directives[1..]);
    }
  }

  lemma {:induction false} DirectivesTidy(directives: seq<Node>, low: nat)
    requires InOrder(directives, low, AfterAll(low, SpansOf(directives)))
    ensures Tidy(DirectiveGaps(low, SpansOf(directives)), low, AfterAll(low, SpansOf(directives)))
    decreases |directives|
  {
    if directives == [] {
    } else {
      var at := directives[0].span;
      assert SpansOf(directives)[1..] == SpansOf(directives[1..]);
      DirectivesTidy(directives[1..], at.end);
      TidyOne(Gap(low, at.start, at));
      Stretch([Gap(low, at.start, at)], low, at.start, at.end);
      TidyConcat([Gap(low, at.start, at)], DirectiveGaps(at.end, SpansOf(directives[1..])), low, at.end,
                 AfterAll(low, SpansOf(directives)));
    }
  }

  lemma Stretch(gaps: seq<Gap>, low: nat, high: nat, higher: nat)
    requires Tidy(gaps, low, high) && high <= higher
    ensures Tidy(gaps, low, higher)
  {
  }

  lemma {:induction false} MembersTidy(members: seq<Node>, low: nat, high: nat)
    requires InOrder(members, low, high) && AllWellNested(members)
    ensures Tidy(MemberGaps(low, members), low, high)
    decreases members
  {
    if members == [] {
    } else {
      hide PairwiseApart;
      var at := members[0].span;
      var gap := Gap(low, at.start, at);
      NodeTidy(members[0]);
      MembersTidy(members[1..], at.end, high);
      TidyOne(gap);
      TidyConcat([gap], Gaps(members[0]), low, at.start, at.end);
      TidyConcat([gap] + Gaps(members[0]), MemberGaps(at.end, members[1..]), low, at.end, high);
    }
  }

  // ---- finding the gap a comment lies in

  /** The derived order of `(u32, u32, (u32, u32))`. */
  predicate GapLe(g: Gap, h: Gap) {
    if g.start != h.start then g.start < h.start
    else if g.end != h.end then g.end < h.end
    else if g.statement.start != h.statement.start then g.statement.start < h.statement.start
    else g.statement.end <= h.statement.end
  }

  lemma GapLeIsTotal()
    ensures TotalPreorder(GapLe) && Antisymmetric(GapLe)
  {
  }

  predicate Contains(g: Gap, span: Span) {
    g.start <= span.start && span.end <= g.end
  }

  /** Gaps that stay apart whatever order they are listed in. */
  ghost predicate KeepApart(gaps: multiset<Gap>) {
    && (forall g, h :: g in gaps && h in gaps && g != h ==> Apart(g, h))
    && (forall g :: gaps[g] > 1 ==> g.start == g.end)
  }

  lemma KeepsApart(gaps: seq<Gap>)
    requires PairwiseApart(gaps) && forall g :: g in gaps ==> g.start <= g.end
    ensures KeepApart(multiset(gaps))
  {
    forall g, h | g in multiset(gaps) && h in multiset(gaps) && g != h
      ensures Apart(g, h)
    {
      var i :| 0 <= i < |gaps| && gaps[i] == g;
      var j :| 0 <= j < |gaps| && gaps[j] == h;
      ApartAt(gaps, i, j);
    }
    forall g | multiset(gaps)[g] > 1
      ensures g.start == g.end
    {
      var i, j := Twice(gaps, g);
      ApartAt(gaps, i, j);
    }
  }

  lemma ApartAt(gaps: seq<Gap>, i: nat, j: nat)
    requires PairwiseApart(gaps) && i < |gaps| && j < |gaps| && i != j
    ensures Apart(gaps[i], gaps[j])
  {
    if j < i {
      assert Apart(gaps[j], gaps[i]);
    }
  }

  lemma Twice(gaps: seq<Gap>, g: Gap) returns (i: nat, j: nat)
    requires multiset(gaps)[g] > 1
    ensures i < |gaps| && j < |gaps| && i != j && gaps[i] == gaps[j] == g
  {
    assert g in gaps;
    i :| 0 <= i < |gaps| && gaps[i] == g;
    Without(gaps, i);
    var rest := gaps[..i] + gaps[i + 1..];
    assert multiset(rest)[g] == multiset(gaps)[g] - 1;
    assert g in multiset(rest);
    var k :| 0 <= k < |rest| && rest[k] == g;
    j := if k < i then k else k + 1;
  }

  /** Nothing that starts after a gap containing the comment and no later than the comment can sort behind that gap. */
  lemma LastBeforeIsIt(gaps: seq<Gap>, span: Span, n: nat, k: nat)
    requires Sorted(gaps, GapLe) && KeepApart(multiset(gaps)) && span.start < span.end
    requires n <= |gaps| && (forall i :: 0 <= i < n ==> gaps[i].start <= span.start)
    requires forall i :: n <= i < |gaps| ==> gaps[i].start > span.start
    requires forall g :: g in gaps ==> g.start <= g.end
    requires k < |gaps| && Contains(gaps[k], span)
    ensures 0 < n && gaps[n - 1] == gaps[k]
  {
    assert k < n;
    var g, h := gaps[k], gaps[n - 1];
    assert k == n - 1 || GapLe(g, h);
    assert g in multiset(gaps) && h in multiset(gaps) && h in gaps;
    assert g == h || Apart(g, h);
  }

  /** Find the gap a comment lies in among the sorted gaps: the last that starts no later, if it reaches far enough. */
  method Locate(gaps: seq<Gap>, span: Span) returns (found: Option<Gap>)
    requires Sorted(gaps, GapLe) && KeepApart(multiset(gaps)) && span.start < span.end
    requires forall g :: g in gaps ==> g.start <= g.end
    ensures found.Some? ==> found.value in gaps && Contains(found.value, span)
    ensures forall g :: g in gaps && Contains(g, span) ==> found == Some(g)
  {
    var n := PartitionPoint(gaps, (gap: Gap) => gap.start <= span.start);
    found := if n > 0 && span.end <= gaps[n - 1].end then Some(gaps[n - 1]) else None;
    forall g | g in gaps && Contains(g, span)
      ensures found == Some(g)
    {
      var k :| 0 <= k < |gaps| && gaps[k] == g;
      LastBeforeIsIt(gaps, span, n, k);
    }
  }
}
