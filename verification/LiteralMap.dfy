/** How the segments of a map grow as steps are appended. */
module LiteralMap {
  import opened Utf8
  import opened Literal

  lemma {:induction false} RunLengthIs(steps: seq<Step>, n: nat)
    requires n <= |steps|
    requires forall i :: 0 <= i < n ==> steps[i].Positional?
    requires n < |steps| ==> steps[n].Replacement?
    ensures RunLength(steps) == n
  {
  }

  /** A cut between two segments. */
  predicate Cut(a: seq<Step>, b: seq<Step>) {
    a == [] || b == [] || a[|a| - 1].Replacement? || b[0].Replacement?
  }

  lemma HeadOfConcat(a: seq<Step>, b: seq<Step>)
    requires a != [] && Cut(a, b)
    ensures Head(a + b) == Head(a)
  {
    if a[0].Positional? {
      RunLengthIs(a + b, RunLength(a));
    }
  }

  /** Where decoded text and source stand after some steps. */
  predicate After(steps: seq<Step>, d: nat, o: nat, d': nat, o': nat) {
    d' == d + |TextBytes(steps)| && o' == o + |SourceBytes(steps)|
  }

  lemma {:induction false} SegmentsConcat(a: seq<Step>, b: seq<Step>, d: nat, o: nat, d': nat, o': nat)
    requires Cut(a, b) && After(a, d, o, d', o')
    ensures Segments(a + b, d, o) == Segments(a, d, o) + Segments(b, d', o')
    decreases |a|
  {
    if a == [] {
      assert a + b == b;
    } else {
      hide Encode, TextOf, SourceOf;
      HeadOfConcat(a, b);
      var x, y := a[..Head(a)], a[Head(a)..];
      Regroup(a, b, x, y);
      BytesConcat(x, y);
      var d1, o1 := d + |TextBytes(x)|, o + |SourceBytes(x)|;
      Unfold(a, x, y, d, o, d1, o1);
      Unfold(a + b, x, y + b, d, o, d1, o1);
      SegmentsConcat(y, b, d1, o1, d', o');
      Glue(Covering(x, d, o), Segments(y, d1, o1), Segments(b, d', o'), Segments(y + b, d1, o1));
    }
  }

  lemma Regroup(a: seq<Step>, b: seq<Step>, x: seq<Step>, y: seq<Step>)
    requires a != [] && Cut(a, b) && x == a[..Head(a)] && y == a[Head(a)..]
    ensures a == x + y && a + b == x + (y + b) && Cut(y, b)
  {
  }

  lemma Glue(first: InputSegment, tail: seq<InputSegment>, more: seq<InputSegment>, joined: seq<InputSegment>)
    requires joined == tail + more
    ensures [first] + joined == ([first] + tail) + more
  {
  }

  lemma Unfold(steps: seq<Step>, x: seq<Step>, y: seq<Step>, d: nat, o: nat, d': nat, o': nat)
    requires steps == x + y && steps != [] && |x| == Head(steps) && After(x, d, o, d', o')
    ensures Segments(steps, d, o) == [Covering(x, d, o)] + Segments(y, d', o')
  {
    hide TextOf, SourceOf, Encode, RunLength;
    assert steps[..|x|] == x && steps[|x|..] == y;
  }

  /** Steps that make one segment: one replacement, or a run of positional steps. */
  predicate OneSegment(steps: seq<Step>) {
    steps != [] && (|steps| == 1 || forall i :: 0 <= i < |steps| ==> steps[i].Positional?)
  }

  lemma SegmentsSnoc(a: seq<Step>, last: seq<Step>, d: nat, o: nat)
    requires Cut(a, last) && OneSegment(last)
    ensures Segments(a + last, d, o)
         == Segments(a, d, o) + [Covering(last, d + |TextBytes(a)|, o + |SourceBytes(a)|)]
  {
    hide TextOf, SourceOf, Encode;
    var d', o' := d + |TextBytes(a)|, o + |SourceBytes(a)|;
    SegmentsConcat(a, last, d, o, d', o');
    if last[0].Positional? {
      RunLengthIs(last, |last|);
    }
    assert last + [] == last;
    Unfold(last, last, [], d', o', d' + |TextBytes(last)|, o' + |SourceBytes(last)|);
  }

  lemma SegmentsEmpty(steps: seq<Step>, d: nat, o: nat)
    ensures Segments(steps, d, o) == [] <==> steps == []
  {
  }

  // ---- what one step promises

  /** A step whose positional claim holds byte for byte. */
  predicate Aligned(step: Step) {
    step.Positional? ==> Width(step.written) == Width(step.read)
  }

  /** A replacement never looks positional: the backslash or the CR makes its source side longer. */
  predicate Shrinks(step: Step) {
    step.Replacement? ==> |Encode(step.piece)| < |Encode(step.spelling)|
  }

  lemma EncodeAtLeast(cs: seq<Scalar>, n: nat)
    requires n < |cs|
    ensures |Encode(cs)| >= n + Width(cs[n])
  {
    EncodeSplit(cs, n);
    assert cs[n..][0] == cs[n];
  }

  lemma OneScalar(c: Scalar)
    ensures |Encode([c])| == Width(c) && |Encode([])| == 0
  {
    EncodeOne(c);
  }

  lemma StepShrinks(s: seq<Scalar>, kind: Kind)
    requires s != [] && Next(s, kind).Take?
    ensures Aligned(Next(s, kind).step) && Shrinks(Next(s, kind).step)
  {
    NextConsumes(s, kind);
    var step := Next(s, kind).step;
    if step.Replacement? {
      hide Encode;
      if |step.piece| == 1 {
        OneScalar(step.piece[0]);
        assert step.piece == [step.piece[0]];
        if |step.spelling| == 2 && step.piece[0] == step.spelling[1] {
          EncodeAtLeast(step.spelling, 1);
        }
      } else {
        OneScalar(0);
      }
    }
  }
}
