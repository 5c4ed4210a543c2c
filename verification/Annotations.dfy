/** Attaching each annotation to the one declaration it describes, as `attach` of
    `crates/intlify_authoring_js/src/metadata.rs` does after the walk. */
module Annotations {
  import opened Wrappers
  import opened SpanTree
  import opened Sorting
  import opened GapOrder
  import opened Ownership
  import opened Placement
  import opened Reports

  /** Why an annotation is reported. */
  datatype Detail =
    | CommentForm
    | AnnotationBytes
    | BadMetadata(code: nat)  // what decoding and checking its JSON found
    | Misplaced
    | Repeated
    | TargetReference
    | TargetAbsent
    | TargetAmbiguous

  /** What one comment is to the profile; the values of an annotation are opaque here. */
  datatype Reading<V> =
    | Ordinary
    | Misspelled
    | Marked(json: Result<V, nat>)

  datatype Comment<V> = Comment(span: Span, reading: Reading<V>)

  datatype Candidate<V> = Candidate(span: Span, json: Result<V, nat>)

  /** What the annotations say about one declaration. */
  datatype Note<V> = Absent | Valid(values: V) | Rejected

  // ---- grouping by statement

  /** The positions whose statement is `s`, in order. */
  function IndicesOf(list: seq<Option<Span>>, s: Span): (indices: seq<nat>)
    ensures forall k :: 0 <= k < |indices| ==> indices[k] < |list| && list[indices[k]] == Some(s)
  {
    if list == [] then []
    else
      var n := |list| - 1;
      IndicesOf(list[..n], s) + if list[n] == Some(s) then [n] else []
  }

  lemma {:induction false} IndexIn(list: seq<Option<Span>>, s: Span, i: nat)
    requires i < |list|
    ensures i in IndicesOf(list, s) <==> list[i] == Some(s)
    decreases |list|
  {
    var n := |list| - 1;
    if i < n {
      IndexIn(list[..n], s, i);
    } else {
      assert forall k :: 0 <= k < |IndicesOf(list[..n], s)| ==> IndicesOf(list[..n], s)[k] < n;
    }
  }

  /** A map from statement to positions, as `entry(..).or_default().push(..)` builds it. */
  ghost predicate Groups(m: map<Span, seq<nat>>, list: seq<Option<Span>>) {
    && (forall s :: s in m <==> IndicesOf(list, s) != [])
    && (forall s :: s in m ==> m[s] == IndicesOf(list, s))
  }

  function Push(m: map<Span, seq<nat>>, s: Span, index: nat): map<Span, seq<nat>> {
    m[s := (if s in m then m[s] else []) + [index]]
  }

  lemma PushGroups(m: map<Span, seq<nat>>, list: seq<Option<Span>>, next: Option<Span>)
    requires Groups(m, list)
    ensures Groups(if next.Some? then Push(m, next.value, |list|) else m, list + [next])
  {
    assert (list + [next])[..|list|] == list;
    forall s
      ensures IndicesOf(list + [next], s) == IndicesOf(list, s) + if next == Some(s) then [|list|] else []
    {
    }
  }

  method GroupBy(list: seq<Option<Span>>) returns (m: map<Span, seq<nat>>)
    ensures Groups(m, list)
  {
    m := map[];
    for i := 0 to |list|
      invariant Groups(m, list[..i])
    {
      PushGroups(m, list[..i], list[i]);
      assert list[..i] + [list[i]] == list[..i + 1];
      if list[i].Some? {
        m := Push(m, list[i].value, i);
      }
    }
    assert list[..|list|] == list;
  }

  // ---- what the walk says, as a function of the tree

  /** The comment lies in the source between `statement` and whatever comes before it in the same list. */
  ghost predicate Precedes(root: Node, comment: Span, statement: Span) {
    exists g :: g in Gaps(root) && Contains(g, comment) && g.statement == statement
  }

  /** The statement each declaration is owned by, if any is. */
  function OwnersOf(root: Node, declared: seq<Span>): (owners: seq<Option<Span>>)
    ensures |owners| == |declared|
  {
    seq(|declared|, i requires 0 <= i < |declared| => OwnerIn(root, declared[i]))
  }

  function OwnerIn(root: Node, at: Span): Option<Span> {
    var last := LastOwner(Entries(root, None), at);
    if last.Some? then last.value else None
  }

  /** `by_range`: each declared span, with its index. */
  function ByRange(declared: seq<Span>): (m: map<Span, nat>)
    ensures forall at :: at in m ==> m[at] < |declared| && declared[m[at]] == at
    ensures forall i :: 0 <= i < |declared| ==> declared[i] in m
  {
    if declared == [] then map[]
    else
      var n := |declared| - 1;
      ByRange(declared[..n])[declared[n] := n]
  }

  ghost predicate Distinct(declared: seq<Span>) {
    forall i, j :: 0 <= i < j < |declared| ==> declared[i] != declared[j]
  }

  lemma {:induction false} EnteredLast(declared: seq<Span>, entries: seq<Entry>, i: nat)
    requires Distinct(declared) && i < |declared|
    ensures Indexes(ByRange(declared), |declared|)
    ensures EnterAll(Nobody(|declared|), ByRange(declared), entries)[i]
         == var last := LastOwner(entries, declared[i]); if last.Some? then last.value else None
    decreases |entries|
  {
    if entries != [] {
      var n := |entries| - 1;
      EnteredLast(declared, entries[..n], i);
      assert entries == entries[..n] + [entries[n]];
      EnterOneMore(Nobody(|declared|), ByRange(declared), entries[..n], entries[n]);
    }
  }

  lemma OwnersEntered(root: Node, declared: seq<Span>)
    requires Distinct(declared)
    ensures Indexes(ByRange(declared), |declared|)
    ensures EnterAll(Nobody(|declared|), ByRange(declared), Entries(root, None)) == OwnersOf(root, declared)
  {
    hide Entries, EnterAll, LastOwner;
    var owners := EnterAll(Nobody(|declared|), ByRange(declared), Entries(root, None));
    forall i | 0 <= i < |declared|
      ensures owners[i] == OwnersOf(root, declared)[i]
    {
      EnteredLast(declared, Entries(root, None), i);
    }
  }

  // ---- what is to be said, before any of it is done

  /** Everything placement decides from: the annotations and what each was checked to, the statement
      each precedes, and the statement that owns each declaration or use. */
  datatype Scene<V> = Scene(
    annotations: seq<Candidate<V>>,
    checked: seq<Option<V>>,
    placed: seq<Option<Span>>,
    owners: seq<Option<Span>>,
    using: seq<Span>,
    reported: seq<Span>)
  {
    predicate Valid() {
      |annotations| == |checked| == |placed|
    }

    /** What the declaration is to carry. */
    function NoteFor(d: nat): Note<V>
      requires Valid() && d < |owners|
    {
      if owners[d].None? || IndicesOf(owners, owners[d].value) != [d] then Absent
      else
        var group := IndicesOf(placed, owners[d].value);
        if group == [] then Absent
        else if |group| == 1 && checked[group[0]].Some? then Note.Valid(checked[group[0]].value)
        else Rejected
    }

    /** Why annotation `i` is reported where it stands, if it is. */
    function Fate(i: nat): Option<Detail>
      requires Valid() && i < |placed|
    {
      if placed[i].None? then Some(Misplaced)
      else if |IndicesOf(placed, placed[i].value)| > 1 then Some(Repeated)
      else Target(placed[i].value)
    }

    /** Why the one annotation before `statement` is reported, if it is. */
    function Target(statement: Span): Option<Detail> {
      var own := IndicesOf(owners, statement);
      if own == [] then
        if statement in using then Some(TargetReference)
        else if ReportedWithin(reported, statement) then None
        else Some(TargetAbsent)
      else if |own| == 1 then None
      else Some(TargetAmbiguous)
    }

    lemma TargetIs(statement: Span)
      ensures var own := IndicesOf(owners, statement);
              && (own == [] ==> Target(statement) == if statement in using then Some(TargetReference)
                                                     else if ReportedWithin(reported, statement) then None
                                                     else Some(TargetAbsent))
              && (|own| == 1 ==> Target(statement) == None)
              && (|own| > 1 ==> Target(statement) == Some(TargetAmbiguous))
    {
      hide IndicesOf, ReportedWithin;
    }

    /** The note of a statement's only declaration, when some annotation precedes the statement. */
    lemma NoteForOnly(statement: Span, only: nat)
      requires Valid() && IndicesOf(owners, statement) == [only] && IndicesOf(placed, statement) != []
      ensures only < |owners|
      ensures var group := IndicesOf(placed, statement);
              NoteFor(only) == if |group| == 1 && checked[group[0]].Some? then Note.Valid(checked[group[0]].value) else Rejected
    {
      assert IndicesOf(owners, statement)[0] == only;
    }

    predicate InScene(group: seq<nat>) {
      forall k :: 0 <= k < |group| ==> group[k] < |placed|
    }

    /** What is reported of annotation `i` once its fate is known. */
    function RecordsAt(i: nat): (records: seq<Record<Detail>>)
      requires Valid() && i < |placed|
      ensures |records| <= 1
    {
      if Fate(i).Some? then [Record(Fate(i).value, annotations[i].span)] else []
    }

    /** The reports of the first `n` annotations that precede nothing, in order. */
    function Misplacements(n: nat): seq<Record<Detail>>
      requires Valid() && n <= |placed|
    {
      if n == 0 then [] else Misplacements(n - 1) + if placed[n - 1].None? then RecordsAt(n - 1) else []
    }

    /** The reports of a group of annotations, in order. */
    function GroupRecords(group: seq<nat>): seq<Record<Detail>>
      requires Valid() && InScene(group)
    {
      if group == [] then [] else GroupRecords(group[..|group| - 1]) + RecordsAt(group[|group| - 1])
    }

    /** The reports of the annotations before each statement, one statement after another. */
    function SettledRecords(statements: seq<Span>): seq<Record<Detail>>
      requires Valid()
    {
      if statements == [] then []
      else
        SettledRecords(statements[..|statements| - 1]) + GroupRecords(IndicesOf(placed, statements[|statements| - 1]))
    }

    /** The statements some annotation precedes, each once and in the order of their spans. */
    ghost predicate SettlingOrder(statements: seq<Span>) {
      Sorted(statements, SpanLe) && Once(statements) && forall s :: s in statements <==> IndicesOf(placed, s) != []
    }

    /** There is one such order. */
    lemma OneSettlingOrder(a: seq<Span>, b: seq<Span>)
      requires SettlingOrder(a) && SettlingOrder(b)
      ensures a == b
    {
      hide IndicesOf;
      OnceMultiset(a, b);
      SpansAreOrdered();
      OnceUntied(a);
      SortedUnique(a, b, SpanLe);
    }

    /** The reports owed to the first `n` annotations, of those misplaced or before a statement in `done`. */
    ghost function Owed(done: set<Span>, n: nat): multiset<Record<Detail>>
      requires Valid() && n <= |placed|
    {
      if n == 0 then multiset{}
      else Owed(done, n - 1)
           + if placed[n - 1].None? || placed[n - 1].value in done then multiset(RecordsAt(n - 1)) else multiset{}
    }

    lemma OwedStep(done: set<Span>, n: nat)
      requires Valid() && n < |placed|
      ensures Owed(done, n + 1)
           == Owed(done, n)
              + if placed[n].None? || placed[n].value in done then multiset(RecordsAt(n)) else multiset{}
    {
      hide RecordsAt;
    }

    /** The group of a statement among the first `n` annotations, and one more. */
    lemma GroupStep(s: Span, n: nat)
      requires Valid() && n < |placed|
      ensures InScene(IndicesOf(placed[..n], s)) && InScene(IndicesOf(placed[..n + 1], s))
      ensures multiset(GroupRecords(IndicesOf(placed[..n + 1], s)))
           == multiset(GroupRecords(IndicesOf(placed[..n], s)))
              + if placed[n] == Some(s) then multiset(RecordsAt(n)) else multiset{}
    {
      hide IndicesOf, RecordsAt, GroupRecords;
      IndicesOneMore(placed, s, n + 1);
      if placed[n] == Some(s) {
        GroupOneMore(IndicesOf(placed[..n], s), n);
      }
    }

    lemma {:induction false} OwedMore(done: set<Span>, s: Span, n: nat)
      requires Valid() && n <= |placed| && s !in done
      ensures InScene(IndicesOf(placed[..n], s))
      ensures Owed(done + {s}, n) == Owed(done, n) + multiset(GroupRecords(IndicesOf(placed[..n], s)))
    {
      hide IndicesOf, RecordsAt, GroupRecords, Owed;
      if n == 0 {
        OwedNone(done, s);
      } else {
        OwedMore(done, s, n - 1);
        GroupStep(s, n - 1);
        OwedStep(done, n - 1);
        OwedStep(done + {s}, n - 1);
      }
    }

    lemma OwedNone(done: set<Span>, s: Span)
      requires Valid()
      ensures Owed(done, 0) == Owed(done + {s}, 0) == multiset{}
      ensures IndicesOf(placed[..0], s) == [] && GroupRecords([]) == []
    {
    }

    lemma {:induction false} MisplacedOwed(n: nat)
      requires Valid() && n <= |placed|
      ensures multiset(Misplacements(n)) == Owed({}, n)
    {
      hide RecordsAt;
      if n > 0 {
        MisplacedOwed(n - 1);
      }
    }

    lemma {:induction false} SettledOwed(statements: seq<Span>)
      requires Valid() && Once(statements)
      ensures multiset(Misplacements(|placed|)) + multiset(SettledRecords(statements))
           == Owed((set s | s in statements), |placed|)
    {
      hide RecordsAt, IndicesOf, Owed, Misplacements, GroupRecords;
      if statements == [] {
        MisplacedOwed(|placed|);
        assert (set s | s in statements) == {};
      } else {
        var n := |statements| - 1;
        var front, last := statements[..n], statements[n];
        assert statements == front + [last];
        SettledOwed(front);
        OwedMore((set s | s in front), last, |placed|);
        assert placed[..|placed|] == placed;
        assert (set s | s in statements) == (set s | s in front) + {last};
        assert multiset(SettledRecords(statements))
            == multiset(SettledRecords(front)) + multiset(GroupRecords(IndicesOf(placed, last)));
      }
    }

    /** Every report owed. */
    ghost function AllOwed(n: nat): multiset<Record<Detail>>
      requires Valid() && n <= |placed|
    {
      if n == 0 then multiset{} else AllOwed(n - 1) + multiset(RecordsAt(n - 1))
    }

    /** No more is owed to some of the annotations than to all of them. */
    lemma {:induction false} OwedWithin(done: set<Span>, n: nat)
      requires Valid() && n <= |placed|
      ensures |Owed(done, n)| <= |AllOwed(n)|
    {
      hide RecordsAt;
      if n > 0 {
        OwedWithin(done, n - 1);
      }
    }

    lemma {:induction false} OwedIsAll(done: set<Span>, n: nat)
      requires Valid() && n <= |placed|
      requires forall i :: 0 <= i < |placed| && placed[i].Some? ==> placed[i].value in done
      ensures Owed(done, n) == AllOwed(n)
    {
      hide RecordsAt;
      if n > 0 {
        OwedIsAll(done, n - 1);
      }
    }

    /** Statement by statement, every report owed is made once and no other is. */
    lemma SettledIsAll(statements: seq<Span>)
      requires Valid() && SettlingOrder(statements)
      ensures multiset(Misplacements(|placed|) + SettledRecords(statements)) == AllOwed(|placed|)
    {
      hide IndicesOf, Owed, Misplacements, AllOwed, SettledRecords;
      SettledOwed(statements);
      forall i | 0 <= i < |placed| && placed[i].Some?
        ensures placed[i].value in set s | s in statements
      {
        IndexIn(placed, placed[i].value, i);
      }
      OwedIsAll((set s | s in statements), |placed|);
    }

    /** What is made up to any statement is no more than all that is owed. */
    lemma SettledWithin(statements: seq<Span>)
      requires Valid() && Once(statements)
      ensures |Misplacements(|placed|)| + |SettledRecords(statements)| <= |AllOwed(|placed|)|
    {
      hide Owed, Misplacements, AllOwed, SettledRecords;
      SettledOwed(statements);
      OwedWithin((set s | s in statements), |placed|);
      assert |multiset(Misplacements(|placed|)) + multiset(SettledRecords(statements))|
          == |Misplacements(|placed|)| + |SettledRecords(statements)|;
    }

    lemma {:induction false} MisplacementsGrow(n: nat, m: nat)
      requires Valid() && n <= m <= |placed|
      ensures |Misplacements(n)| <= |Misplacements(m)|
    {
      hide RecordsAt;
      if n < m {
        MisplacementsGrow(n, m - 1);
      }
    }

    /** Placing annotation `i` reports it just when it precedes nothing. */
    lemma PlacingMore(i: nat)
      requires Valid() && i < |placed|
      ensures Misplacements(i + 1)
           == Misplacements(i) + if placed[i].None? then [Record(Misplaced, annotations[i].span)] else []
    {
      hide Target, IndicesOf;
    }

    lemma PlacingNone()
      requires Valid()
      ensures Misplacements(0) == []
    {
    }

    lemma {:induction false} GroupGrows(group: seq<nat>, k: nat)
      requires Valid() && k <= |group| && InScene(group)
      ensures |GroupRecords(group[..k])| <= |GroupRecords(group)|
    {
      hide RecordsAt;
      if k == |group| {
        assert group[..k] == group;
      } else {
        GroupGrows(group[..|group| - 1], k);
        assert group[..|group| - 1][..k] == group[..k];
      }
    }

    /** One annotation before a statement: it is applied, reported, or stays quiet. */
    lemma OneReported(statement: Span, index: nat)
      requires Valid() && IndicesOf(placed, statement) == [index]
      ensures index < |placed|
      ensures GroupRecords([index])
           == if Target(statement).Some? then [Record(Target(statement).value, annotations[index].span)] else []
    {
      hide Target;
      assert IndicesOf(placed, statement)[0] == index;
      GroupOneMore([], index);
      assert [] + [index] == [index];
    }

    /** Each of several annotations before one statement is reported. */
    lemma RepeatedReported(statement: Span, group: seq<nat>, k: nat)
      requires Valid() && group == IndicesOf(placed, statement) && |group| > 1 && k < |group|
      ensures group[k] < |placed|
      ensures GroupRecords(group[..k + 1]) == GroupRecords(group[..k]) + [Record(Repeated, annotations[group[k]].span)]
    {
      hide IndicesOf, GroupRecords, RecordsAt;
      RepeatedRecord(statement, group[k]);
      GroupOneMore(group[..k], group[k]);
      assert group[..k] + [group[k]] == group[..k + 1];
    }

    lemma RepeatedRecord(statement: Span, i: nat)
      requires Valid() && i < |placed| && placed[i] == Some(statement) && |IndicesOf(placed, statement)| > 1
      ensures RecordsAt(i) == [Record(Repeated, annotations[i].span)]
    {
      hide IndicesOf, Target;
    }

    lemma GroupNone(group: seq<nat>)
      requires Valid() && group == []
      ensures GroupRecords(group) == []
    {
    }

    lemma GroupOneMore(group: seq<nat>, i: nat)
      requires Valid() && i < |placed| && InScene(group)
      ensures GroupRecords(group + [i]) == GroupRecords(group) + RecordsAt(i)
    {
      assert (group + [i])[..|group|] == group;
    }

    lemma SettledMore(statements: seq<Span>, n: nat)
      requires Valid() && n < |statements|
      ensures SettledRecords(statements[..n + 1])
           == SettledRecords(statements[..n]) + GroupRecords(IndicesOf(placed, statements[n]))
    {
      hide IndicesOf, GroupRecords;
      assert statements[..n + 1][..n] == statements[..n];
    }

    lemma SettledNone(statements: seq<Span>)
      requires Valid() && statements == []
      ensures SettledRecords(statements) == []
    {
    }
  }

  // ---- statements, each once

  ghost predicate Once<T>(s: seq<T>) {
    forall i, j :: 0 <= i < j < |s| ==> s[i] != s[j]
  }

  lemma SpansAreOrdered()
    ensures TotalPreorder(SpanLe) && Antisymmetric(SpanLe)
  {
  }

  lemma OnceUntied(s: seq<Span>)
    requires Once(s)
    ensures !Tied(s, SpanLe)
  {
  }

  lemma {:induction false} OnceCount<T>(s: seq<T>, x: T)
    requires Once(s)
    ensures multiset(s)[x] == if x in s then 1 else 0
  {
    if s != [] {
      var n := |s| - 1;
      OnceCount(s[..n], x);
      assert s == s[..n] + [s[n]];
    }
  }

  lemma OnceMultiset<T(!new)>(a: seq<T>, b: seq<T>)
    requires Once(a) && Once(b) && forall x :: x in a <==> x in b
    ensures multiset(a) == multiset(b)
  {
    forall x
      ensures multiset(a)[x] == multiset(b)[x]
    {
      OnceCount(a, x);
      OnceCount(b, x);
    }
  }

  /** The keys of a map ordered by span, as a `BTreeMap` gives them. */
  method InKeyOrder(before: map<Span, seq<nat>>) returns (statements: seq<Span>)
    ensures Sorted(statements, SpanLe) && Once(statements) && forall s :: s in statements <==> s in before
  {
    hide Sorted;
    var keys: seq<Span> := [];
    var rest := before.Keys;
    while rest != {}
      invariant rest <= before.Keys && Once(keys) && forall s :: s in keys <==> s in before && s !in rest
      decreases |rest|
    {
      var key :| key in rest;
      OnceMore(keys, key);
      keys := keys + [key];
      rest := rest - {key};
    }
    SpansAreOrdered();
    statements := Sort(keys, SpanLe);
    SameElements(statements, keys);
    OnceUntied(keys);
    TiedAnyOrder(keys, statements, SpanLe);
    UntiedOnce(statements);
  }

  lemma OnceMore<T>(s: seq<T>, x: T)
    requires Once(s) && x !in s
    ensures Once(s + [x])
  {
  }

  lemma UntiedOnce(s: seq<Span>)
    requires !Tied(s, SpanLe)
    ensures Once(s)
  {
    forall i, j | 0 <= i < j < |s|
      ensures s[i] != s[j]
    {
      assert SpanLe(s[i], s[i]);
    }
  }

  lemma IndicesOneMore(list: seq<Option<Span>>, s: Span, n: nat)
    requires n <= |list|
    ensures n == 0 ==> IndicesOf(list[..n], s) == []
    ensures n > 0 && list[n - 1] == Some(s) ==> IndicesOf(list[..n], s) == IndicesOf(list[..n - 1], s) + [n - 1]
    ensures n > 0 && list[n - 1] != Some(s) ==> IndicesOf(list[..n], s) == IndicesOf(list[..n - 1], s)
  {
    if n > 0 {
      assert list[..n][..n - 1] == list[..n - 1];
    }
  }

  /** One of the spans lies inside that of `statement`. */
  predicate ReportedWithin(reported: seq<Span>, statement: Span) {
    exists i :: 0 <= i < |reported| && statement.start <= reported[i].start && reported[i].end <= statement.end
  }

  // ---- the steps of `attach`

  function FormRecords<V>(comments: seq<Comment<V>>): seq<Record<Detail>> {
    if comments == [] then []
    else
      var last := comments[|comments| - 1];
      FormRecords(comments[..|comments| - 1])
      + if last.reading.Misspelled? then [Record(CommentForm, last.span)] else []
  }

  function Candidates<V>(comments: seq<Comment<V>>): seq<Candidate<V>> {
    if comments == [] then []
    else
      var last := comments[|comments| - 1];
      Candidates(comments[..|comments| - 1])
      + if last.reading.Marked? then [Candidate(last.span, last.reading.json)] else []
  }

  lemma ReadOneMore<V>(comments: seq<Comment<V>>, n: nat)
    requires n < |comments|
    ensures FormRecords(comments[..n + 1])
         == FormRecords(comments[..n])
            + if comments[n].reading.Misspelled? then [Record(CommentForm, comments[n].span)] else []
    ensures Candidates(comments[..n + 1])
         == Candidates(comments[..n])
            + if comments[n].reading.Marked? then [Candidate(comments[n].span, comments[n].reading.json)] else []
  {
    assert comments[..n + 1][..n] == comments[..n];
  }

  lemma {:induction false} FormsGrow<V>(comments: seq<Comment<V>>, n: nat)
    requires n <= |comments|
    ensures |FormRecords(comments[..n])| <= |FormRecords(comments)|
    decreases |comments| - n
  {
    hide FormRecords, Candidates;
    if n == |comments| {
      assert comments[..n] == comments;
    } else {
      ReadOneMore(comments, n);
      FormsGrow(comments, n + 1);
    }
  }

  lemma ReadNone<V>(comments: seq<Comment<V>>)
    requires comments == []
    ensures FormRecords(comments) == [] && Candidates(comments) == []
  {
  }

  method ReadComments<V>(comments: seq<Comment<V>>, reporter: Reporter<Detail>) returns (ok: bool, annotations: seq<Candidate<V>>)
    requires reporter.Valid()
    modifies reporter
    ensures reporter.Valid()
    ensures ok ==> annotations == Candidates(comments) && reporter.records == old(reporter.records) + FormRecords(comments)
    ensures !ok ==> |old(reporter.records)| + |FormRecords(comments)| > reporter.budget
  {
    hide FormRecords, Candidates;
    annotations := [];
    ok := true;
    ReadNone(comments[..0]);
    for i := 0 to |comments|
      invariant ok && reporter.Valid() && annotations == Candidates(comments[..i])
      invariant reporter.records == old(reporter.records) + FormRecords(comments[..i])
    {
      ReadOneMore(comments, i);
      FormsGrow(comments, i + 1);
      match comments[i].reading
      case Ordinary =>
      case Misspelled =>
        ok := reporter.At(CommentForm, comments[i].span);
        if !ok {
          return;
        }
      case Marked(json) =>
        annotations := annotations + [Candidate(comments[i].span, json)];
    }
    assert comments[..|comments|] == comments;
  }

  function Size(span: Span): int {
    span.end - span.start
  }

  function Checked<V>(annotation: Candidate<V>, limit: nat): Option<V> {
    if Size(annotation.span) > limit || annotation.json.Err? then None else Some(annotation.json.value)
  }

  function CheckDetail<V>(annotation: Candidate<V>, limit: nat): Option<Detail> {
    if Size(annotation.span) > limit then Some(AnnotationBytes)
    else if annotation.json.Err? then Some(BadMetadata(annotation.json.error))
    else None
  }

  function CheckRecords<V>(annotations: seq<Candidate<V>>, limit: nat): seq<Record<Detail>> {
    if annotations == [] then []
    else
      var last := annotations[|annotations| - 1];
      CheckRecords(annotations[..|annotations| - 1], limit)
      + if CheckDetail(last, limit).Some? then [Record(CheckDetail(last, limit).value, last.span)] else []
  }

  function CheckedAll<V>(annotations: seq<Candidate<V>>, limit: nat): (checked: seq<Option<V>>)
    ensures |checked| == |annotations|
  {
    seq(|annotations|, i requires 0 <= i < |annotations| => Checked(annotations[i], limit))
  }

  lemma CheckOneMore<V>(annotations: seq<Candidate<V>>, limit: nat, n: nat)
    requires n < |annotations|
    ensures var detail := CheckDetail(annotations[n], limit);
            (CheckRecords(annotations[..n + 1], limit)
             == CheckRecords(annotations[..n], limit)
                + if detail.Some? then [Record(detail.value, annotations[n].span)] else [])
  {
    assert annotations[..n + 1][..n] == annotations[..n];
  }

  lemma {:induction false} ChecksGrow<V>(annotations: seq<Candidate<V>>, limit: nat, n: nat)
    requires n <= |annotations|
    ensures |CheckRecords(annotations[..n], limit)| <= |CheckRecords(annotations, limit)|
    decreases |annotations| - n
  {
    hide CheckRecords, CheckDetail;
    if n == |annotations| {
      assert annotations[..n] == annotations;
    } else {
      CheckOneMore(annotations, limit, n);
      ChecksGrow(annotations, limit, n + 1);
    }
  }

  lemma CheckNone<V>(annotations: seq<Candidate<V>>, limit: nat)
    requires annotations == []
    ensures CheckRecords(annotations, limit) == []
  {
  }

  method CheckAnnotations<V>(annotations: seq<Candidate<V>>, limit: nat, reporter: Reporter<Detail>)
    returns (ok: bool, checked: seq<Option<V>>)
    requires reporter.Valid()
    modifies reporter
    ensures reporter.Valid()
    ensures ok ==> checked == CheckedAll(annotations, limit)
    ensures ok ==> reporter.records == old(reporter.records) + CheckRecords(annotations, limit)
    ensures !ok ==> |old(reporter.records)| + |CheckRecords(annotations, limit)| > reporter.budget
  {
    hide CheckRecords;
    checked := [];
    ok := true;
    CheckNone(annotations[..0], limit);
    for i := 0 to |annotations|
      invariant ok && reporter.Valid() && checked == CheckedAll(annotations, limit)[..i]
      invariant reporter.records == old(reporter.records) + CheckRecords(annotations[..i], limit)
    {
      CheckOneMore(annotations, limit, i);
      ChecksGrow(annotations, limit, i + 1);
      var Candidate(span, json) := annotations[i];
      if Size(span) > limit {
        ok := reporter.At(AnnotationBytes, span);
        if !ok {
          return;
        }
        checked := checked + [None];
      } else {
        match json
        case Ok(values) => checked := checked + [Some(values)];
        case Err(code) =>
          ok := reporter.At(BadMetadata(code), span);
          if !ok {
            return;
          }
          checked := checked + [None];
      }
    }
    assert annotations[..|annotations|] == annotations;
  }

  ghost function PlacedIn(root: Node, comment: Span): Option<Span> {
    if exists s :: Precedes(root, comment, s) then var s :| Precedes(root, comment, s); Some(s) else None
  }

  ghost function PlacedOf<V>(root: Node, annotations: seq<Candidate<V>>): (placed: seq<Option<Span>>)
    ensures |placed| == |annotations|
    ensures forall i :: 0 <= i < |annotations| ==> placed[i] == PlacedIn(root, annotations[i].span)
  {
    seq(|annotations|, i requires 0 <= i < |annotations| => PlacedIn(root, annotations[i].span))
  }

  /** The gaps of the tree, in the order the search relies on. */
  ghost predicate SortedGaps(root: Node, gaps: seq<Gap>) {
    Sorted(gaps, GapLe) && multiset(gaps) == multiset(Gaps(root))
  }

  lemma GapsReady(root: Node, gaps: seq<Gap>)
    requires WellNested(root) && SortedGaps(root, gaps)
    ensures KeepApart(multiset(gaps)) && forall g :: g in gaps ==> g.start <= g.end
  {
    hide WellNested, Gaps, Sorted;
    NodeTidy(root);
    KeepsApart(Gaps(root));
    SameElements(gaps, Gaps(root));
  }

  /** A found gap is the only one, so it names the only statement the comment precedes. */
  lemma FoundPlaces(root: Node, gaps: seq<Gap>, comment: Span, found: Option<Gap>)
    requires SortedGaps(root, gaps)
    requires found.Some? ==> found.value in gaps && Contains(found.value, comment)
    requires forall g :: g in gaps && Contains(g, comment) ==> found == Some(g)
    ensures PlacedIn(root, comment) == if found.Some? then Some(found.value.statement) else None
    ensures forall s :: Precedes(root, comment, s) <==> PlacedIn(root, comment) == Some(s)
  {
    hide Gaps, Contains, Sorted;
    SameElements(gaps, Gaps(root));
    forall s
      ensures Precedes(root, comment, s) <==> found.Some? && found.value.statement == s
    {
      if Precedes(root, comment, s) {
        var g :| g in Gaps(root) && Contains(g, comment) && g.statement == s;
        assert g in gaps;
      }
    }
    assert found.Some? ==> Precedes(root, comment, found.value.statement);
  }

  method PlaceAnnotations<V>(ghost root: Node, gaps: seq<Gap>, annotations: seq<Candidate<V>>, reporter: Reporter<Detail>,
                             ghost scene: Scene<V>)
    returns (ok: bool, before: map<Span, seq<nat>>)
    requires WellNested(root) && SortedGaps(root, gaps)
    requires forall i :: 0 <= i < |annotations| ==> annotations[i].span.start < annotations[i].span.end
    requires scene.Valid() && scene.annotations == annotations && scene.placed == PlacedOf(root, annotations)
    requires reporter.Valid()
    modifies reporter
    ensures reporter.Valid()
    ensures ok ==> Groups(before, scene.placed)
    ensures ok ==> reporter.records == old(reporter.records) + scene.Misplacements(|annotations|)
    ensures !ok ==> |old(reporter.records)| + |scene.Misplacements(|annotations|)| > reporter.budget
  {
    hide WellNested, Sorted, Gaps, KeepApart, Precedes, IndicesOf, Groups, Scene.Target, Scene.Misplacements, Contains;
    GapsReady(root, gaps);
    before := map[];
    ok := true;
    NoGroups();
    scene.PlacingNone();
    for i := 0 to |annotations|
      invariant ok && reporter.Valid() && Groups(before, scene.placed[..i])
      invariant reporter.records == old(reporter.records) + scene.Misplacements(i)
    {
      var span := annotations[i].span;
      var gap := Locate(gaps, span);
      FoundPlaces(root, gaps, span, gap);
      PushGroups(before, scene.placed[..i], scene.placed[i]);
      assert scene.placed[..i] + [scene.placed[i]] == scene.placed[..i + 1];
      scene.PlacingMore(i);
      scene.MisplacementsGrow(i + 1, |annotations|);
      match gap
      case Some(gap) =>
        before := Push(before, gap.statement, i);
      case None =>
        ok := reporter.At(Misplaced, span);
        if !ok {
          return;
        }
    }
    assert scene.placed[..|annotations|] == scene.placed;
  }

  lemma NoGroups()
    ensures forall list :: list == [] ==> Groups(map[], list)
  {
  }

  /** Where the notes stand while the statements in `rest` are still to be settled. */
  ghost predicate Noted<V>(scene: Scene<V>, notes: seq<Note<V>>, rest: set<Span>)
    requires scene.Valid()
  {
    && |notes| == |scene.owners|
    && forall d :: 0 <= d < |notes| ==>
         notes[d] == if scene.owners[d].Some? && scene.owners[d].value in rest then Absent else scene.NoteFor(d)
  }

  /** What the code holds is what the scene says. */
  ghost predicate Shows<V>(scene: Scene<V>, annotations: seq<Candidate<V>>, checked: seq<Option<V>>,
                           using: seq<Span>, reported: seq<Span>)
  {
    scene.annotations == annotations && scene.checked == checked && scene.using == using && scene.reported == reported
  }

  lemma NotedAtFirst<V>(scene: Scene<V>, notes: seq<Note<V>>, before: map<Span, seq<nat>>)
    requires scene.Valid() && Groups(before, scene.placed) && |notes| == |scene.owners|
    requires forall d :: 0 <= d < |notes| ==> notes[d] == Absent
    ensures Noted(scene, notes, before.Keys)
  {
  }

  /** Settling a statement that owns exactly `only` writes its note and no other. */
  lemma NotedOnly<V>(scene: Scene<V>, notes: seq<Note<V>>, rest: set<Span>, statement: Span, only: nat)
    requires scene.Valid() && Noted(scene, notes, rest) && statement in rest && IndicesOf(scene.owners, statement) == [only]
    ensures only < |notes| && Noted(scene, notes[only := scene.NoteFor(only)], rest - {statement})
  {
    hide Scene.NoteFor;
    assert IndicesOf(scene.owners, statement)[0] == only;
    forall d | 0 <= d < |notes| && scene.owners[d] == Some(statement)
      ensures d == only
    {
      IndexIn(scene.owners, statement, d);
    }
  }

  /** A statement that owns no declaration, or several, leaves every note as it is. */
  lemma NotedNone<V>(scene: Scene<V>, notes: seq<Note<V>>, rest: set<Span>, statement: Span)
    requires scene.Valid() && Noted(scene, notes, rest) && |IndicesOf(scene.owners, statement)| != 1
    ensures Noted(scene, notes, rest - {statement})
  {
    hide IndicesOf;
    forall d | 0 <= d < |notes| && scene.owners[d] == Some(statement)
      ensures scene.NoteFor(d) == Absent
    {
    }
  }

  /** Settle every statement some annotation precedes, in the order of their spans. */
  method SettleGroups<V>(ghost scene: Scene<V>, annotations: seq<Candidate<V>>, checked: seq<Option<V>>,
                         before: map<Span, seq<nat>>, own: map<Span, seq<nat>>, using: seq<Span>, reported: seq<Span>,
                         notes: array<Note<V>>, reporter: Reporter<Detail>, ghost base: seq<Record<Detail>>)
    returns (ok: bool, ghost statements: seq<Span>)
    requires Shows(scene, annotations, checked, using, reported)
    requires scene.Valid() && Groups(before, scene.placed) && Groups(own, scene.owners)
    requires notes.Length == |scene.owners| && forall d :: 0 <= d < notes.Length ==> notes[d] == Absent
    requires reporter.records == base + scene.Misplacements(|scene.placed|) && reporter.Valid()
    modifies notes, reporter
    ensures reporter.Valid() && scene.SettlingOrder(statements)
    ensures ok ==> forall d :: 0 <= d < notes.Length ==> notes[d] == scene.NoteFor(d)
    ensures ok ==>
              reporter.records == base + scene.Misplacements(|scene.placed|) + scene.SettledRecords(statements)
    ensures !ok ==> |base| + |scene.AllOwed(|scene.placed|)| > reporter.budget
  {
    hide IndicesOf, Scene.NoteFor, Scene.Target, Scene.GroupRecords, Scene.SettledRecords, Scene.Misplacements,
      Scene.AllOwed, Noted, Sorted;
    var order := InKeyOrder(before);
    statements := order;
    ghost var rest := before.Keys;
    NotedAtFirst(scene, notes[..], before);
    scene.SettledNone(order[..0]);
    ok := true;
    for k := 0 to |order|
      invariant ok && reporter.Valid() && Noted(scene, notes[..], rest)
      invariant forall s :: s in rest <==> s in order[k..]
      invariant reporter.records == base + scene.Misplacements(|scene.placed|) + scene.SettledRecords(order[..k])
    {
      var statement := order[k];
      assert statement in order && order[k..][0] == statement;
      scene.SettledMore(order, k);
      scene.SettledWithin(order[..k + 1]);
      var candidates := if statement in own then own[statement] else [];
      ok := SettleOne(scene, annotations, checked, statement, before[statement], candidates, using, reported, notes, reporter,
                      rest);
      if !ok {
        return;
      }
      rest := rest - {statement};
      RestOfOrder(order, k);
    }
    assert order[..|order|] == order;
    assert rest == {};
    Finished(scene, notes[..]);
  }

  /** What is left of a list without repetitions holds everything but its first element. */
  lemma RestOfOrder<T(!new)>(order: seq<T>, k: nat)
    requires Once(order) && k < |order|
    ensures forall s :: s in order[k + 1..] <==> s in order[k..] && s != order[k]
  {
    assert order[k..] == [order[k]] + order[k + 1..];
  }

  lemma Finished<V>(scene: Scene<V>, notes: seq<Note<V>>)
    requires scene.Valid() && Noted(scene, notes, {})
    ensures forall d :: 0 <= d < |notes| ==> notes[d] == scene.NoteFor(d)
  {
    hide Scene.NoteFor;
  }

  /** Settle the annotations in `group`, all of which precede `statement`. */
  method SettleOne<V>(ghost scene: Scene<V>, annotations: seq<Candidate<V>>, checked: seq<Option<V>>,
                      statement: Span, group: seq<nat>, candidates: seq<nat>, using: seq<Span>, reported: seq<Span>,
                      notes: array<Note<V>>, reporter: Reporter<Detail>, ghost rest: set<Span>)
    returns (ok: bool)
    requires Shows(scene, annotations, checked, using, reported)
    requires scene.Valid() && statement in rest && group != []
    requires group == IndicesOf(scene.placed, statement) && candidates == IndicesOf(scene.owners, statement)
    requires Noted(scene, notes[..], rest) && reporter.Valid()
    modifies notes, reporter
    ensures reporter.Valid()
    ensures ok ==> Noted(scene, notes[..], rest - {statement})
    ensures ok ==> reporter.records == old(reporter.records) + scene.GroupRecords(group)
    ensures !ok ==> |old(reporter.records)| + |scene.GroupRecords(group)| > reporter.budget
  {
    hide IndicesOf, Scene.GroupRecords, Scene.Target, Scene.NoteFor, Noted, ReportedWithin;
    if |candidates| != 1 {
      NotedNone(scene, notes[..], rest, statement);
    } else {
      NotedOnly(scene, notes[..], rest, statement, candidates[0]);
      scene.NoteForOnly(statement, candidates[0]);
    }
    if |group| == 1 {
      var index := group[0];
      scene.OneReported(statement, index);
      var failed: Option<Detail> := None;
      if |candidates| == 0 {
        failed := if statement in using then Some(TargetReference)
                  else if ReportedWithin(reported, statement) then None
                  else Some(TargetAbsent);
      } else if |candidates| == 1 {
        notes[candidates[0]] := match checked[index] case Some(values) => Note.Valid(values) case None => Rejected;
      } else {
        failed := Some(TargetAmbiguous);
      }
      assert failed == scene.Target(statement) by {
        scene.TargetIs(statement);
      }
      ok := true;
      if failed.Some? {
        ok := reporter.At(failed.value, annotations[index].span);
      }
      return;
    }
    ok := ReportRepeated(scene, annotations, statement, group, reporter);
    if ok && |candidates| == 1 {
      notes[candidates[0]] := Rejected;
    }
  }

  /** Several annotations before one statement are each reported. */
  method ReportRepeated<V>(ghost scene: Scene<V>, annotations: seq<Candidate<V>>, statement: Span, group: seq<nat>,
                           reporter: Reporter<Detail>)
    returns (ok: bool)
    requires scene.Valid() && scene.annotations == annotations
    requires group == IndicesOf(scene.placed, statement) && |group| > 1 && reporter.Valid()
    modifies reporter
    ensures reporter.Valid()
    ensures ok ==> reporter.records == old(reporter.records) + scene.GroupRecords(group)
    ensures !ok ==> |old(reporter.records)| + |scene.GroupRecords(group)| > reporter.budget
  {
    hide IndicesOf, Scene.GroupRecords, Scene.Target;
    ok := true;
    scene.GroupNone(group[..0]);
    for k := 0 to |group|
      invariant ok && reporter.Valid()
      invariant reporter.records == old(reporter.records) + scene.GroupRecords(group[..k])
    {
      scene.RepeatedReported(statement, group, k);
      scene.GroupGrows(group, k + 1);
      ok := reporter.At(Repeated, annotations[group[k]].span);
      if !ok {
        return;
      }
    }
    assert group[..|group|] == group;
  }

  // ---- the whole of `attach`

  /** What every annotation of the unit comes to, decided from the tree alone. */
  ghost function SceneOf<V>(root: Node, comments: seq<Comment<V>>, declared: seq<Span>, shared: set<Span>,
                            limit: nat, reported: seq<Span>): (scene: Scene<V>)
    ensures scene.Valid()
  {
    var annotations := Candidates(comments);
    Scene(annotations, CheckedAll(annotations, limit), PlacedOf(root, annotations),
          OwnersOf(root, declared), UsesIn(shared, Entries(root, None)), reported)
  }

  function SpansIn(records: seq<Record<Detail>>): (spans: seq<Span>)
    ensures |spans| == |records| && forall i :: 0 <= i < |spans| ==> spans[i] == records[i].span
  {
    seq(|records|, i requires 0 <= i < |records| => records[i].span)
  }

  /** What the walk collects: the sorted gaps, who owns each declaration, and who uses a shared one. */
  method Walk(root: Node, declared: seq<Span>, shared: set<Span>)
    returns (gaps: seq<Gap>, declaredIn: seq<Option<Span>>, usedIn: seq<Span>)
    requires Distinct(declared)
    ensures SortedGaps(root, gaps)
    ensures declaredIn == OwnersOf(root, declared)
    ensures usedIn == UsesIn(shared, Entries(root, None))
  {
    hide Gaps, Entries, EnterAll, UsesIn, Sorted, LastOwner;
    OwnersEntered(root, declared);
    var placer := new Placer(ByRange(declared), shared, |declared|);
    placer.Visit(root);
    assert placer.entered == Entries(root, None) && placer.gaps == Gaps(root);
    GapLeIsTotal();
    gaps := Sort(placer.gaps, GapLe);
    declaredIn := placer.declaredIn;
    usedIn := placer.usedIn;
  }

  /** Every declaration carries its note, and after the earlier records come those of the annotations that precede
      nothing and then, statement by statement in the order of their spans, those of the others. */
  ghost predicate Attached<V>(scene: Scene<V>, notes: seq<Note<V>>, base: seq<Record<Detail>>, records: seq<Record<Detail>>)
    requires scene.Valid()
  {
    && |notes| == |scene.owners| && (forall d :: 0 <= d < |notes| ==> notes[d] == scene.NoteFor(d))
    && exists statements :: scene.SettlingOrder(statements)
                            && records == base + scene.Misplacements(|scene.placed|) + scene.SettledRecords(statements)
  }

  /** Every report owed is made once, and no other. */
  lemma AttachedOnce<V>(scene: Scene<V>, notes: seq<Note<V>>, base: seq<Record<Detail>>, records: seq<Record<Detail>>)
    requires scene.Valid() && Attached(scene, notes, base, records)
    ensures multiset(records) == multiset(base) + scene.AllOwed(|scene.placed|)
    ensures |records| == |base| + |scene.AllOwed(|scene.placed|)|
  {
    hide Scene.NoteFor, Scene.Misplacements, Scene.SettledRecords, Scene.AllOwed, Scene.SettlingOrder;
    var statements :| scene.SettlingOrder(statements)
                      && records == base + scene.Misplacements(|scene.placed|) + scene.SettledRecords(statements);
    scene.SettledIsAll(statements);
    assert records == base + (scene.Misplacements(|scene.placed|) + scene.SettledRecords(statements));
    assert |multiset(records)| == |records|;
  }

  /** How many records the whole step makes. */
  ghost function Made<V>(comments: seq<Comment<V>>, scene: Scene<V>, limit: nat): nat
    requires scene.Valid()
  {
    |FormRecords(comments)| + |CheckRecords(scene.annotations, limit)| + |scene.AllOwed(|scene.placed|)|
  }

  /** The whole step: it succeeds exactly when everything to be reported fits, and then leaves every note and every
      record as the scene decides. */
  method Attach<V>(root: Node, comments: seq<Comment<V>>, declared: seq<Span>, shared: set<Span>, limit: nat,
                   notes: array<Note<V>>, reporter: Reporter<Detail>)
    returns (ok: bool)
    requires WellNested(root) && Distinct(declared)
    requires forall i :: 0 <= i < |comments| ==> comments[i].span.start < comments[i].span.end
    requires notes.Length == |declared| && forall d :: 0 <= d < notes.Length ==> notes[d] == Absent
    requires reporter.Valid()
    modifies notes, reporter
    ensures reporter.Valid()
    ensures ok <==>
              var scene := SceneOf(root, comments, declared, shared, limit, SpansIn(old(reporter.records)));
              |old(reporter.records)| + Made(comments, scene, limit) <= reporter.budget
    ensures ok ==>
              var scene := SceneOf(root, comments, declared, shared, limit, SpansIn(old(reporter.records)));
              var base := old(reporter.records) + FormRecords(comments) + CheckRecords(scene.annotations, limit);
              Attached(scene, notes[..], base, reporter.records)
  {
    hide WellNested, Attached, SceneOf, Shows, SortedGaps, Groups, FormRecords, CheckRecords, Candidates, Distinct;
    hide Entries, UsesIn, OwnersOf, PlacedOf, CheckedAll, Scene.Misplacements, Scene.AllOwed, Scene.NoteFor,
      Scene.SettledRecords, Scene.SettlingOrder, Gaps, SpansIn;
    var reported := SpansIn(reporter.records);
    ghost var scene := SceneOf(root, comments, declared, shared, limit, reported);
    SceneShows(scene, root, comments, declared, shared, limit, reported);
    var annotations;
    ok, annotations := ReadComments(comments, reporter);
    if !ok {
      return;
    }
    if |annotations| == 0 {
      NothingOwed(scene, notes[..], limit, reporter.records);
      return;
    }
    CandidatesNonempty(comments);
    var checked;
    ok, checked := CheckAnnotations(annotations, limit, reporter);
    if !ok {
      return;
    }
    var gaps, declaredIn, usedIn := Walk(root, declared, shared);
    ghost var base := reporter.records;
    var before;
    ok, before := PlaceAnnotations(root, gaps, annotations, reporter, scene);
    MisplacedWithin(scene);
    if !ok {
      return;
    }
    var own := GroupBy(declaredIn);
    ghost var statements;
    ok, statements := SettleGroups(scene, annotations, checked, before, own, usedIn, reported, notes, reporter, base);
    if ok {
      IsAttached(scene, notes[..], base, reporter.records, statements);
      AttachedOnce(scene, notes[..], base, reporter.records);
    }
  }

  lemma MisplacedWithin<V>(scene: Scene<V>)
    requires scene.Valid()
    ensures |scene.Misplacements(|scene.placed|)| <= |scene.AllOwed(|scene.placed|)|
  {
    hide Scene.Misplacements, Scene.AllOwed;
    scene.SettledWithin([]);
  }

  lemma SceneShows<V>(scene: Scene<V>, root: Node, comments: seq<Comment<V>>, declared: seq<Span>, shared: set<Span>,
                      limit: nat, reported: seq<Span>)
    requires scene == SceneOf(root, comments, declared, shared, limit, reported)
    ensures scene.Valid() && scene.annotations == Candidates(comments) && scene.placed == PlacedOf(root, scene.annotations)
    ensures scene.owners == OwnersOf(root, declared)
    ensures Shows(scene, scene.annotations, CheckedAll(scene.annotations, limit), UsesIn(shared, Entries(root, None)), reported)
  {
    hide Candidates, Entries, UsesIn, OwnersOf, PlacedOf, CheckedAll;
  }

  lemma IsAttached<V>(scene: Scene<V>, notes: seq<Note<V>>, base: seq<Record<Detail>>, records: seq<Record<Detail>>,
                      statements: seq<Span>)
    requires scene.Valid() && |notes| == |scene.owners|
    requires forall d :: 0 <= d < |notes| ==> notes[d] == scene.NoteFor(d)
    requires scene.SettlingOrder(statements)
    requires records == base + scene.Misplacements(|scene.placed|) + scene.SettledRecords(statements)
    ensures Attached(scene, notes, base, records)
  {
    hide Scene.NoteFor, Scene.Misplacements, Scene.SettledRecords, Scene.SettlingOrder;
  }

  lemma NothingOwed<V>(scene: Scene<V>, notes: seq<Note<V>>, limit: nat, records: seq<Record<Detail>>)
    requires scene.Valid() && scene.annotations == [] && |notes| == |scene.owners|
    requires forall d :: 0 <= d < |notes| ==> notes[d] == Absent
    ensures CheckRecords(scene.annotations, limit) == [] && |scene.AllOwed(|scene.placed|)| == 0
    ensures Attached(scene, notes, records + CheckRecords(scene.annotations, limit), records)
  {
    assert records + CheckRecords(scene.annotations, limit) == records;
    assert scene.SettlingOrder([]);
    assert scene.SettledRecords([]) == [] && scene.Misplacements(|scene.placed|) == [];
  }

  lemma {:induction false} CandidatesNonempty<V>(comments: seq<Comment<V>>)
    requires forall i :: 0 <= i < |comments| ==> comments[i].span.start < comments[i].span.end
    ensures var annotations := Candidates(comments);
            forall i :: 0 <= i < |annotations| ==> annotations[i].span.start < annotations[i].span.end
  {
    if comments != [] {
      var n := |comments| - 1;
      CandidatesNonempty(comments[..n]);
      var annotations := Candidates(comments);
      forall i | 0 <= i < |annotations|
        ensures annotations[i].span.start < annotations[i].span.end
      {
        assert i < |Candidates(comments[..n])| ==> annotations[i] == Candidates(comments[..n])[i];
        assert i == |Candidates(comments[..n])| ==> annotations[i].span == comments[n].span;
      }
    }
  }
}
