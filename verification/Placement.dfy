/** The tree walk of `crates/intlify_authoring_js/src/metadata.rs`, as it changes its two stacks: it
    collects the gaps in front of statements and, by span, the statement that owns a node. */
module Placement {
  import opened Wrappers
  import opened SpanTree

  /** What a list leaves for its members to find: where its first gap begins, and its directives. */
  datatype Opening = Opening(start: nat, directives: seq<Span>)

  /** One layer around the node being visited. */
  datatype Frame =
    | Member(statement: Span)
    | Inside  // nothing inside it belongs to a statement outside

  function Top(frames: seq<Frame>): Option<Span> {
    if frames != [] && frames[|frames| - 1].Member? then Some(frames[|frames| - 1].statement) else None
  }

  // ---- what the entries of a walk leave behind

  /** Every declaration has its place in the list of owners. */
  predicate Indexes(declarations: map<Span, nat>, count: nat) {
    forall at :: at in declarations ==> declarations[at] < count
  }

  function Enter(declaredIn: seq<Option<Span>>, declarations: map<Span, nat>, entry: Entry): (after: seq<Option<Span>>)
    requires Indexes(declarations, |declaredIn|)
    ensures |after| == |declaredIn|
  {
    if entry.at in declarations then
      declaredIn[declarations[entry.at] := entry.owner]
    else declaredIn
  }

  function EnterAll(declaredIn: seq<Option<Span>>, declarations: map<Span, nat>, entries: seq<Entry>): (after: seq<Option<Span>>)
    requires Indexes(declarations, |declaredIn|)
    ensures |after| == |declaredIn|
    decreases |entries|
  {
    if entries == [] then declaredIn
    else EnterAll(Enter(declaredIn, declarations, entries[0]), declarations, entries[1..])
  }

  function UsesIn(shared: set<Span>, entries: seq<Entry>): seq<Span> {
    if entries == [] then []
    else UseOf(shared, entries[0]) + UsesIn(shared, entries[1..])
  }

  lemma {:induction false} EnterOneMore(declaredIn: seq<Option<Span>>, declarations: map<Span, nat>,
                                        entries: seq<Entry>, last: Entry)
    requires Indexes(declarations, |declaredIn|)
    ensures EnterAll(declaredIn, declarations, entries + [last])
         == Enter(EnterAll(declaredIn, declarations, entries), declarations, last)
    decreases |entries|
  {
    if entries == [] {
      assert [] + [last] == [last];
    } else {
      assert (entries + [last])[0] == entries[0] && (entries + [last])[1..] == entries[1..] + [last];
      EnterOneMore(Enter(declaredIn, declarations, entries[0]), declarations, entries[1..], last);
    }
  }

  function UseOf(shared: set<Span>, entry: Entry): seq<Span> {
    if entry.at in shared && entry.owner.Some? then [entry.owner.value] else []
  }

  lemma {:induction false} UsesOneMore(shared: set<Span>, entries: seq<Entry>, last: Entry)
    ensures UsesIn(shared, entries + [last]) == UsesIn(shared, entries) + UseOf(shared, last)
  {
    if entries == [] {
      assert [] + [last] == [last];
    } else {
      assert (entries + [last])[0] == entries[0] && (entries + [last])[1..] == entries[1..] + [last];
      UsesOneMore(shared, entries[1..], last);
      var first := UseOf(shared, entries[0]);
      assert first + (UsesIn(shared, entries[1..]) + UseOf(shared, last))
          == (first + UsesIn(shared, entries[1..])) + UseOf(shared, last);
    }
  }

  function Nobody(count: nat): (owners: seq<Option<Span>>)
    ensures |owners| == count && forall i :: 0 <= i < count ==> owners[i] == None
  {
    seq(count, _ => None)
  }

  lemma WalkOf(node: Node, owner: Option<Span>)
    ensures node.Plain? ==>
              && Entries(node, owner) == [Entry(node.span, owner)] + AllEntries(node.children, owner)
              && Gaps(node) == AllGaps(node.children)
    ensures node.Barrier? ==>
              && Entries(node, owner) == [Entry(node.span, None)] + AllEntries(node.children, None)
              && Gaps(node) == AllGaps(node.children)
    ensures node.List? ==>
              && Entries(node, owner)
                 == [Entry(node.span, owner)] + AllEntries(node.test, owner) + AllEntries(node.directives, owner)
                    + MemberEntries(node.members)
              && (var spans := SpansOf(node.directives);
                  Gaps(node) == AllGaps(node.test) + AllGaps(node.directives)
                                + (DirectiveGaps(node.opens, spans) + MemberGaps(AfterAll(node.opens, spans), node.members)))
  {
  }

  class Placer {
    /** A stack that every subtree leaves as it found it. */
    var openings: seq<Opening>
    var frames: seq<Frame>
    /** Grows by the gaps of each subtree visited. */
    var gaps: seq<Gap>
    const declarations: map<Span, nat>
    const shared: set<Span>
    /** The last owner entered for each declaration. */
    var declaredIn: seq<Option<Span>>
    /** One statement for each owned use entered. */
    var usedIn: seq<Span>

    const count: nat
    /** Every node entered so far, with its owner. */
    ghost var entered: seq<Entry>

    constructor (declarations: map<Span, nat>, shared: set<Span>, count: nat)
      requires Indexes(declarations, count)
      ensures this.declarations == declarations && this.shared == shared && this.count == count && Valid()
      ensures openings == [] && frames == [] && gaps == [] && entered == []
    {
      this.declarations, this.shared, this.count := declarations, shared, count;
      openings, frames, gaps, usedIn := [], [], [], [];
      declaredIn := Nobody(count);
      entered := [];
    }

    ghost predicate Valid()
      reads this
    {
      && Indexes(declarations, count)
      && declaredIn == EnterAll(Nobody(count), declarations, entered)
      && usedIn == UsesIn(shared, entered)
    }

    method Open(start: nat, directives: seq<Node>)
      modifies this`openings
      ensures openings == old(openings) + [Opening(start, SpansOf(directives))]
    {
      openings := openings + [Opening(start, SpansOf(directives))];
    }

    method EnterNode(at: Span)
      requires Valid()
      modifies this`declaredIn, this`usedIn, this`entered
      ensures Valid() && entered == old(entered) + [Entry(at, Top(frames))]
    {
      var owner := Top(frames);
      EnterOneMore(Nobody(count), declarations, entered, Entry(at, owner));
      UsesOneMore(shared, entered, Entry(at, owner));
      if at in declarations {
        declaredIn := declaredIn[declarations[at] := owner];
      }
      if at in shared && owner.Some? {
        usedIn := usedIn + [owner.value];
      }
      entered := entered + [Entry(at, owner)];
    }

    method Visit(node: Node)
      requires Valid()
      modifies this
      ensures Valid() && openings == old(openings) && frames == old(frames)
      ensures gaps == old(gaps) + Gaps(node)
      ensures entered == old(entered) + Entries(node, Top(frames))
      decreases node, 1
    {
      hide Gaps, Entries, AllGaps, AllEntries, MemberGaps, MemberEntries, DirectiveGaps, EnterAll, UsesIn;
      WalkOf(node, Top(frames));
      match node
      case Plain(span, children) =>
        EnterNode(span);
        VisitAll(children);
      case Barrier(span, children) =>
        frames := frames + [Inside];
        EnterNode(span);
        VisitAll(children);
        frames := frames[..|frames| - 1];
      case List(span, opens, test, directives, members) =>
        Open(opens, directives);
        EnterNode(span);
        VisitAll(test);
        VisitAll(directives);
        VisitStatements(members);
    }

    method VisitAll(nodes: seq<Node>)
      requires Valid()
      modifies this
      ensures Valid() && openings == old(openings) && frames == old(frames)
      ensures gaps == old(gaps) + AllGaps(nodes)
      ensures entered == old(entered) + AllEntries(nodes, Top(frames))
      decreases nodes, 0
    {
      hide Gaps, Entries, EnterAll, UsesIn, AllGaps, AllEntries;
      WalkOfAll(nodes, Top(frames));
      if nodes != [] {
        Visit(nodes[0]);
        VisitAll(nodes[1..]);
      }
    }

    method VisitStatements(members: seq<Node>)
      requires Valid() && openings != []
      modifies this
      ensures Valid() && openings == old(openings[..|openings| - 1]) && frames == old(frames)
      ensures var opening := old(openings[|openings| - 1]);
              gaps == old(gaps) + (DirectiveGaps(opening.start, opening.directives)
                                   + MemberGaps(AfterAll(opening.start, opening.directives), members))
      ensures entered == old(entered) + MemberEntries(members)
      decreases members, 1
    {
      hide DirectiveGaps, MemberGaps, MemberEntries;
      var opening := openings[|openings| - 1];
      openings := openings[..|openings| - 1];
      var previous := PlaceDirectives(opening);
      VisitMembers(previous, members);
    }

    method PlaceDirectives(opening: Opening) returns (previous: nat)
      requires Valid()
      modifies this`gaps
      ensures gaps == old(gaps) + DirectiveGaps(opening.start, opening.directives)
      ensures previous == AfterAll(opening.start, opening.directives)
    {
      previous := opening.start;
      var i := 0;
      while i < |opening.directives|
        invariant i <= |opening.directives|
        invariant previous == AfterAll(opening.start, opening.directives[..i])
        invariant gaps + DirectiveGaps(previous, opening.directives[i..])
               == old(gaps) + DirectiveGaps(opening.start, opening.directives)
      {
        var directive := opening.directives[i];
        gaps := gaps + [Gap(previous, directive.start, directive)];
        previous := directive.end;
        i := i + 1;
      }
      assert opening.directives[..i] == opening.directives;
    }

    method VisitMembers(start: nat, members: seq<Node>)
      requires Valid()
      modifies this
      ensures Valid() && openings == old(openings) && frames == old(frames)
      ensures gaps == old(gaps) + MemberGaps(start, members)
      ensures entered == old(entered) + MemberEntries(members)
      decreases members, 0
    {
      hide Gaps, Entries, EnterAll, UsesIn, MemberGaps, MemberEntries;
      NoMembers(start);
      var previous := start;
      var i := 0;
      while i < |members|
        invariant i <= |members|
        invariant gaps + MemberGaps(previous, members[i..]) == old(gaps) + MemberGaps(start, members)
        invariant entered + MemberEntries(members[i..]) == old(entered) + MemberEntries(members)
        invariant Valid() && openings == old(openings) && frames == old(frames)
      {
        FirstMember(previous, members[i..]);
        var at := members[i].span;
        gaps := gaps + [Gap(previous, at.start, at)];
        frames := frames + [Member(at)];
        Visit(members[i]);
        frames := frames[..|frames| - 1];
        previous := at.end;
        i := i + 1;
      }
      assert members[i..] == [];
      NoMembers(previous);
    }
  }

  lemma WalkOfAll(nodes: seq<Node>, owner: Option<Span>)
    ensures nodes == [] ==> AllGaps(nodes) == [] && AllEntries(nodes, owner) == []
    ensures nodes != [] ==>
              && AllGaps(nodes) == Gaps(nodes[0]) + AllGaps(nodes[1..])
              && AllEntries(nodes, owner) == Entries(nodes[0], owner) + AllEntries(nodes[1..], owner)
  {
  }

  lemma NoMembers(previous: nat)
    ensures MemberGaps(previous, []) == [] && MemberEntries([]) == []
  {
  }

  lemma FirstMember(previous: nat, members: seq<Node>)
    requires members != []
    ensures var at := members[0].span;
            && MemberGaps(previous, members) == [Gap(previous, at.start, at)] + Gaps(members[0]) + MemberGaps(at.end, members[1..])
            && MemberEntries(members) == Entries(members[0], Some(at)) + MemberEntries(members[1..])
  {
  }
}
