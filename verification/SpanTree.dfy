/** The syntax tree as the annotation placer sees it: spans, statement lists and barriers.

    `Gaps` and `Entries` say what one walk of a subtree meets; the rest of the module proves
    what they mean on a well-nested tree, in terms of paths through it. */
module SpanTree {
  import opened Wrappers

  datatype Span = Span(start: nat, end: nat)

  /** The derived order of spans. */
  predicate SpanLe(a: Span, b: Span) {
    a.start < b.start || (a.start == b.start && a.end <= b.end)
  }

  /** One node.  A `List` is a program, block, function body, static block, switch case or module
      block: it opens a statement list at `opens`, after its test if it has one and before its
      directives.  A `Barrier` is a function, class or namespace. */
  datatype Node =
    | Plain(span: Span, children: seq<Node>)
    | Barrier(span: Span, children: seq<Node>)
    | List(span: Span, opens: nat, test: seq<Node>, directives: seq<Node>, members: seq<Node>)

  /** A place an annotation can be: the source before `statement` and after what precedes it. */
  datatype Gap = Gap(start: nat, end: nat, statement: Span)

  /** A node entered, and the statement that owns what has its span. */
  datatype Entry = Entry(at: Span, owner: Option<Span>)

  // ---- what a walk meets

  function Entries(node: Node, owner: Option<Span>): seq<Entry>
    decreases node, 0
  {
    match node
    case Plain(span, children) => [Entry(span, owner)] + AllEntries(children, owner)
    case Barrier(span, children) => [Entry(span, None)] + AllEntries(children, None)
    case List(span, _, test, directives, members) =>
      [Entry(span, owner)] + AllEntries(test, owner) + AllEntries(directives, owner) + MemberEntries(members)
  }

  function AllEntries(nodes: seq<Node>, owner: Option<Span>): seq<Entry>
    decreases nodes
  {
    if nodes == [] then [] else Entries(nodes[0], owner) + AllEntries(nodes[1..], owner)
  }

  function MemberEntries(members: seq<Node>): seq<Entry>
    decreases members
  {
    if members == [] then []
    else Entries(members[0], Some(members[0].span)) + MemberEntries(members[1..])
  }

  function Gaps(node: Node): seq<Gap>
    decreases node, 0
  {
    match node
    case Plain(_, children) => AllGaps(children)
    case Barrier(_, children) => AllGaps(children)
    case List(_, opens, test, directives, members) =>
      AllGaps(test) + AllGaps(directives) + DirectiveGaps(opens, SpansOf(directives))
      + MemberGaps(AfterAll(opens, SpansOf(directives)), members)
  }

  function SpansOf(nodes: seq<Node>): (spans: seq<Span>)
    ensures |spans| == |nodes|
    ensures forall i :: 0 <= i < |nodes| ==> spans[i] == nodes[i].span
  {
    seq(|nodes|, i requires 0 <= i < |nodes| => nodes[i].span)
  }

  function AllGaps(nodes: seq<Node>): seq<Gap>
    decreases nodes
  {
    if nodes == [] then [] else Gaps(nodes[0]) + AllGaps(nodes[1..])
  }

  function DirectiveGaps(previous: nat, directives: seq<Span>): seq<Gap>
    decreases |directives|
  {
    if directives == [] then []
    else
      [Gap(previous, directives[0].start, directives[0])] + DirectiveGaps(directives[0].end, directives[1..])
  }

  function MemberGaps(previous: nat, members: seq<Node>): seq<Gap>
    decreases members
  {
    if members == [] then []
    else
      var at := members[0].span;
      [Gap(previous, at.start, at)] + Gaps(members[0]) + MemberGaps(at.end, members[1..])
  }

  /** Where the list stands once its directives are read. */
  function AfterAll(opens: nat, directives: seq<Span>): nat {
    if directives == [] then opens else directives[|directives| - 1].end
  }

  // ---- well-nested trees

  /** A node with nothing in it. */
  predicate Leaf(node: Node) {
    node.Plain? && node.children == []
  }

  predicate Disjoint(a: Span, b: Span) {
    a.end <= b.start || b.end <= a.start
  }

  /** Siblings visited in any order.  A leaf may share source with another, as the two names of a shorthand property
      do; any other two lie apart. */
  predicate Scattered(nodes: seq<Node>, low: nat, high: nat) {
    && low <= high
    && (forall i :: 0 <= i < |nodes| ==> low <= nodes[i].span.start <= nodes[i].span.end <= high)
    && (forall i, j :: 0 <= i < j < |nodes| ==>
          Disjoint(nodes[i].span, nodes[j].span) || Leaf(nodes[i]) || Leaf(nodes[j]))
  }

  /** The items of a statement list are read in the order they are written. */
  predicate InOrder(nodes: seq<Node>, low: nat, high: nat) {
    if nodes == [] then low <= high
    else
      && low <= nodes[0].span.start <= nodes[0].span.end
      && InOrder(nodes[1..], nodes[0].span.end, high)
  }

  /** A directive is a statement holding one string literal. */
  predicate IsDirective(node: Node) {
    node.Plain? && |node.children| == 1 && node.children[0].Plain? && node.children[0].children == []
  }

  predicate WellNested(node: Node)
    decreases node, 0
  {
    match node
    case Plain(span, children) => Scattered(children, span.start, span.end) && AllWellNested(children)
    case Barrier(span, children) => Scattered(children, span.start, span.end) && AllWellNested(children)
    case List(span, opens, test, directives, members) =>
      && Scattered(test, span.start, opens) && InOrder(directives + members, opens, span.end)
      && AllWellNested(test) && AllWellNested(directives) && AllWellNested(members)
      && forall d :: d in directives ==> IsDirective(d)
  }

  predicate AllWellNested(nodes: seq<Node>)
    decreases nodes
  {
    nodes == [] || (WellNested(nodes[0]) && AllWellNested(nodes[1..]))
  }
}
