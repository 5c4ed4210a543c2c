/** What a decoded literal's input map promises, and where a refusal points. */
module InputMap {
  import opened Wrappers
  import opened Utf8
  import opened Literal
  import opened LiteralMap

  // ---- every step, seen where it was taken

  lemma NothingRead()
    ensures SourceOf([]) == []
  {
  }

  /** Step `i` is what the decoder does at the content its predecessors left. */
  ghost predicate TakenAt(content: seq<Scalar>, kind: Kind, steps: seq<Step>, i: nat)
    requires i < |steps|
  {
    var taken := |SourceOf(steps[..i])|;
    taken < |content| && Next(content[taken..], kind) == Take(steps[i])
  }

  lemma FirstTaken(content: seq<Scalar>, kind: Kind)
    requires Scan(content, kind).steps != []
    ensures var first := Scan(content, kind).steps[0];
            && content != [] && Next(content, kind) == Take(first) && |first.Source()| <= |content|
            && Scan(content, kind).steps == [first] + Scan(content[|first.Source()|..], kind).steps
  {
    hide Next;
    NextConsumes(content, kind);
  }

  lemma {:induction false} ScanStepAt(content: seq<Scalar>, kind: Kind, i: nat)
    requires i < |Scan(content, kind).steps|
    ensures TakenAt(content, kind, Scan(content, kind).steps, i)
    decreases i
  {
    hide *;
    FirstTaken(content, kind);
    var first := Scan(content, kind).steps[0];
    var rest := content[|first.Source()|..];
    var tail := Scan(rest, kind).steps;
    if i > 0 {
      ScanStepAt(rest, kind, i - 1);
      TakenLater(content, kind, first, tail, i - 1);
    } else {
      TakenFirst(content, kind, first, tail);
    }
  }

  lemma TakenFirst(content: seq<Scalar>, kind: Kind, first: Step, tail: seq<Step>)
    requires content != [] && Next(content, kind) == Take(first)
    ensures TakenAt(content, kind, [first] + tail, 0)
  {
    hide Next;
    NothingRead();
    assert ([first] + tail)[..0] == [] && content[0..] == content;
  }

  lemma TakenLater(content: seq<Scalar>, kind: Kind, first: Step, tail: seq<Step>, i: nat)
    requires i < |tail| && |first.Source()| <= |content|
    requires TakenAt(content[|first.Source()|..], kind, tail, i)
    ensures TakenAt(content, kind, [first] + tail, i + 1)
  {
    hide Next, SourceOf;
    assert ([first] + tail)[..i + 1] == [first] + tail[..i];
    SourceOfConcat([first], tail[..i]);
    OneStep(first);
    var w, taken := |first.Source()|, |SourceOf(tail[..i])|;
    assert content[w..][taken..] == content[w + taken..];
  }

  /** The steps read the content from its start, without a gap, and leave what ends the scan. */
  lemma {:induction false} ScanReads(content: seq<Scalar>, kind: Kind)
    ensures var Scanned(steps, ending) := Scan(content, kind);
            var n := |SourceOf(steps)|;
            n <= |content| && content[..n] == SourceOf(steps) && Scan(content[n..], kind) == Scanned([], ending)
    decreases |content|
  {
    hide Next, Scan, SourceOf;
    if content == [] || !Next(content, kind).Take? {
      ScanHalts(content, kind);
      assert content[0..] == content;
    } else {
      var first := Next(content, kind).step;
      ScanTakes(content, kind, first);
      var w := |first.Source()|;
      ScanReads(content[w..], kind);
      var tail := Scan(content[w..], kind).steps;
      SourceOfConcat([first], tail);
      OneStep(first);
      Resume(content, w, |SourceOf(tail)|);
    }
  }

  lemma ScanHalts(content: seq<Scalar>, kind: Kind)
    requires content == [] || !Next(content, kind).Take?
    ensures Scan(content, kind).steps == [] && SourceOf([]) == []
  {
  }

  lemma Resume(content: seq<Scalar>, w: nat, n: nat)
    requires w + n <= |content|
    ensures content[w..][n..] == content[w + n..] && content[..w] + content[w..][..n] == content[..w + n]
  {
  }

  /** A complete scan reads all of the content; a refused one stops at the refused escape. */
  lemma ScanStops(content: seq<Scalar>, kind: Kind)
    ensures var Scanned(steps, ending) := Scan(content, kind);
            && (ending.Complete? ==> SourceOf(steps) == content)
            && (ending.Refused? ==>
                  && |SourceOf(steps)| < |content|
                  && Next(content[|SourceOf(steps)|..], kind) == Refuse(ending.form, ending.length))
  {
    ScanReads(content, kind);
    var Scanned(steps, ending) := Scan(content, kind);
    var rest := content[|SourceOf(steps)|..];
    hide Next;
    assert Scan(rest, kind).steps == [];
    if ending.Complete? {
      assert rest == [];
      assert content[..|SourceOf(steps)|] == content;
    }
  }

  predicate StandsAlone(spelling: seq<Scalar>, piece: seq<Scalar>, kind: Kind) {
    Scan(spelling, kind) == Scanned([Replacement(spelling, piece)], Complete)
  }

  /** A replacement's spelling is one escape, line continuation or CRLF: alone it decodes to the same piece. */
  lemma ReplacementStandsAlone(s: seq<Scalar>, kind: Kind)
    requires s != [] && Next(s, kind).Take? && Next(s, kind).step.Replacement?
    ensures StandsAlone(Next(s, kind).step.spelling, Next(s, kind).step.piece, kind)
  {
    var step := Next(s, kind).step;
    NextConsumes(s, kind);
    if s[0] == BACKSLASH && s[1] == LOWER_U {
      if s[2] == OPEN_BRACE {
        BracedAlone(s, kind);
      } else {
        FourAlone(s, kind);
      }
    } else {
      hide Unicode;
      assert Next(step.spelling, kind) == Take(step);
    }
    hide Next;
    ScanTakes(step.spelling, kind, step);
    assert step.spelling[|step.spelling|..] == [];
  }

  lemma BracedAlone(s: seq<Scalar>, kind: Kind)
    requires |s| >= 3 && s[0] == BACKSLASH && s[1] == LOWER_U && s[2] == OPEN_BRACE && Next(s, kind).Take?
    ensures Next(s, kind).step.Replacement? && Next(Next(s, kind).step.spelling, kind) == Next(s, kind)
  {
    hide Next, MV, HexRun;
    BracedReads(s, kind);
    var n := HexRun(s[3..]);
    var alone := s[..4 + n];
    assert alone[3..][..n] == s[3..][..n];
    HexRunIs(alone[3..], n);
    BracedReads(alone, kind);
  }

  lemma FourAlone(s: seq<Scalar>, kind: Kind)
    requires |s| >= 3 && s[0] == BACKSLASH && s[1] == LOWER_U && s[2] != OPEN_BRACE && Next(s, kind).Take?
    ensures Next(s, kind).step.Replacement? && Next(Next(s, kind).step.spelling, kind) == Next(s, kind)
  {
    hide Next, MV, HexRun;
    FourRead(s, kind);
    assert FourHex(s[2..]);
    if IsHighSurrogate(MV(s[2..6])) {
      var alone := s[..12];
      assert alone[2..6] == s[2..6] && alone[8..12] == s[8..12];
      FourRead(alone, kind);
    } else {
      var alone := s[..6];
      assert alone[2..6] == s[2..6];
      FourRead(alone, kind);
    }
  }

  // ---- the map covers both sides

  /** The segments follow one another without gap or overlap from (`d`, `o`) to (`d'`, `o'`). */
  predicate Tiles(segments: seq<InputSegment>, d: nat, o: nat, d': nat, o': nat) {
    && segments != []
    && segments[0].decoded.start == d && segments[0].source.start == o
    && segments[|segments| - 1].decoded.end == d' && segments[|segments| - 1].source.end == o'
    && (forall i :: 0 <= i < |segments| ==>
          segments[i].decoded.start <= segments[i].decoded.end && segments[i].source.start <= segments[i].source.end)
    && (forall i :: 0 < i < |segments| ==>
          segments[i].decoded.start == segments[i - 1].decoded.end && segments[i].source.start == segments[i - 1].source.end)
  }

  lemma TilesCons(first: InputSegment, rest: seq<InputSegment>, d: nat, o: nat, d': nat, o': nat)
    requires first.decoded.start == d <= first.decoded.end && first.source.start == o <= first.source.end
    requires Tiles(rest, first.decoded.end, first.source.end, d', o')
    ensures Tiles([first] + rest, d, o, d', o')
  {
    var segments := [first] + rest;
    forall i | 0 < i < |segments|
      ensures segments[i].decoded.start == segments[i - 1].decoded.end
      ensures segments[i].source.start == segments[i - 1].source.end
    {
      assert segments[i] == rest[i - 1] && (i > 1 ==> segments[i - 1] == rest[i - 2]);
    }
  }

  lemma {:induction false} SegmentsTile(steps: seq<Step>, d: nat, o: nat)
    requires steps != []
    ensures Tiles(Segments(steps, d, o), d, o, d + |TextBytes(steps)|, o + |SourceBytes(steps)|)
    decreases |steps|
  {
    hide TextOf, SourceOf, Encode, RunLength;
    var x, y := steps[..Head(steps)], steps[Head(steps)..];
    assert steps == x + y;
    BytesConcat(x, y);
    var d', o' := d + |TextBytes(x)|, o + |SourceBytes(x)|;
    Unfold(steps, x, y, d, o, d', o');
    if y == [] {
      assert x == steps && Segments(y, d', o') == [];
    } else {
      SegmentsTile(y, d', o');
      TilesCons(Covering(x, d, o), Segments(y, d', o'), d, o, d + |TextBytes(steps)|, o + |SourceBytes(steps)|);
    }
  }

  lemma DecodedReads(content: seq<Scalar>, start: nat, kind: Kind, limit: nat)
    requires Decoded(content, start, kind, limit).Ok?
    ensures var steps := Scan(content, kind).steps;
            && Decoded(content, start, kind, limit).value == Cooked(TextBytes(steps), MapOf(steps, start))
            && SourceBytes(steps) == Encode(content)
  {
    hide Scan, TextOf, SourceOf, Encode, Segments, Next;
    ScanStops(content, kind);
  }

  /** The map of a decoded literal tiles its text and its source, both exactly and in order. */
  lemma MapTiles(content: seq<Scalar>, start: nat, kind: Kind, limit: nat)
    requires Decoded(content, start, kind, limit).Ok?
    ensures var cooked := Decoded(content, start, kind, limit).value;
            Tiles(cooked.inputMap, 0, start, |cooked.text|, start + |Encode(content)|)
  {
    hide *;
    DecodedReads(content, start, kind, limit);
    StepsTile(Scan(content, kind).steps, start);
  }

  lemma StepsTile(steps: seq<Step>, start: nat)
    ensures Tiles(MapOf(steps, start), 0, start, |TextBytes(steps)|, start + |SourceBytes(steps)|)
  {
    NothingCovered();
    hide TextOf, SourceOf, Encode, Segments;
    if steps != [] {
      SegmentsTile(steps, 0, start);
    }
  }

  // ---- what one segment says

  /** `g` covers `m`, which is one replacement or a run that no positional step borders. */
  ghost predicate Covers(steps: seq<Step>, d: nat, o: nat, g: InputSegment, p: seq<Step>, m: seq<Step>, q: seq<Step>) {
    && steps == p + m + q && OneSegment(m)
    && (m[0].Positional? ==> Cut(p, m) && Cut(m, q))
    && g == Covering(m, d + |TextBytes(p)|, o + |SourceBytes(p)|)
  }

  lemma {:induction false} SegmentAt(steps: seq<Step>, d: nat, o: nat, i: nat)
    returns (p: seq<Step>, m: seq<Step>, q: seq<Step>)
    requires i < |Segments(steps, d, o)|
    ensures Covers(steps, d, o, Segments(steps, d, o)[i], p, m, q)
    decreases |steps|
  {
    hide *;
    SegmentsEmpty(steps, d, o);
    var x, y := steps[..Head(steps)], steps[Head(steps)..];
    HeadBorders(steps, x, y, d, o);
    var d', o' := d + |TextBytes(x)|, o + |SourceBytes(x)|;
    UnfoldAfter(steps, x, y, d, o);
    if i == 0 {
      p, m, q := [], x, y;
    } else {
      p, m, q := SegmentAt(y, d', o', i - 1);
      CoversLater(x, y, d, o, Segments(y, d', o')[i - 1], p, m, q);
      p := x + p;
    }
  }

  lemma UnfoldAfter(steps: seq<Step>, x: seq<Step>, y: seq<Step>, d: nat, o: nat)
    requires steps == x + y && steps != [] && |x| == Head(steps)
    ensures Segments(steps, d, o) == [Covering(x, d, o)] + Segments(y, d + |TextBytes(x)|, o + |SourceBytes(x)|)
  {
    Unfold(steps, x, y, d, o, d + |TextBytes(x)|, o + |SourceBytes(x)|);
  }

  lemma HeadBorders(steps: seq<Step>, x: seq<Step>, y: seq<Step>, d: nat, o: nat)
    requires steps != [] && x == steps[..Head(steps)] && y == steps[Head(steps)..]
    ensures steps == x + y && OneSegment(x) && Cut(x, y)
    ensures Covers(steps, d, o, Covering(x, d, o), [], x, y)
  {
    NothingCovered();
    assert [] + x + y == steps;
  }

  lemma CoversLater(x: seq<Step>, y: seq<Step>, d: nat, o: nat, g: InputSegment, p: seq<Step>, m: seq<Step>, q: seq<Step>)
    requires x != [] && Cut(x, y)
    requires Covers(y, d + |TextBytes(x)|, o + |SourceBytes(x)|, g, p, m, q)
    ensures Covers(x + y, d, o, g, x + p, m, q)
  {
    hide TextOf, SourceOf, Encode;
    BytesConcat(x, p);
    assert x + y == (x + p) + m + q;
    if p == [] {
      assert x + p == x && y[0] == m[0];
    }
  }

  lemma NothingCovered()
    ensures TextBytes([]) == [] && SourceBytes([]) == []
  {
  }

  // ---- what a segment means, byte for byte

  predicate Genuine(step: Step, kind: Kind) {
    if step.Positional? then
      step.read == step.written || (kind.TemplateLiteral? && step.written == CR && step.read == LF)
    else Shrinks(step) && StandsAlone(step.spelling, step.piece, kind)
  }

  predicate AllGenuine(steps: seq<Step>, kind: Kind) {
    forall i :: 0 <= i < |steps| ==> Genuine(steps[i], kind)
  }

  lemma NextGenuine(s: seq<Scalar>, kind: Kind)
    requires s != [] && Next(s, kind).Take?
    ensures Genuine(Next(s, kind).step, kind)
  {
    StepShrinks(s, kind);
    if Next(s, kind).step.Replacement? {
      hide Next;
      ReplacementStandsAlone(s, kind);
    } else {
      hide Unicode;
    }
  }

  lemma ScanGenuine(content: seq<Scalar>, kind: Kind)
    ensures AllGenuine(Scan(content, kind).steps, kind)
  {
    hide Next, Scan, SourceOf;
    var steps := Scan(content, kind).steps;
    forall i | 0 <= i < |steps|
      ensures Genuine(steps[i], kind)
    {
      ScanStepAt(content, kind, i);
      NextGenuine(content[|SourceOf(steps[..i])|..], kind);
    }
  }

  /** Byte `k` of the source answers for byte `k` of the text. */
  predicate SamePlace(source: seq<Byte>, text: seq<Byte>, kind: Kind) {
    && |source| == |text|
    && forall k :: 0 <= k < |source| ==>
         text[k] == source[k] || (kind.TemplateLiteral? && source[k] == CR && text[k] == LF)
  }

  ghost predicate OneReplacement(source: seq<Byte>, text: seq<Byte>, kind: Kind) {
    exists spelling: seq<Scalar>, piece: seq<Scalar> ::
      source == Encode(spelling) && text == Encode(piece) && StandsAlone(spelling, piece, kind)
  }

  lemma {:induction false} RunKeepsPlace(steps: seq<Step>, kind: Kind)
    requires AllGenuine(steps, kind) && forall i :: 0 <= i < |steps| ==> steps[i].Positional?
    ensures SamePlace(SourceBytes(steps), TextBytes(steps), kind)
  {
    if steps == [] {
      NothingCovered();
    } else {
      var x, y := [steps[0]], steps[1..];
      RunKeepsPlace(y, kind);
      assert steps == x + y;
      BytesConcat(x, y);
      OneStep(steps[0]);
      EncodeOne(steps[0].written);
      EncodeOne(steps[0].read);
      hide Encode, TextOf, SourceOf;
      SamePlaceConcat(SourceBytes(x), TextBytes(x), SourceBytes(y), TextBytes(y), kind);
    }
  }

  lemma SamePlaceConcat(a: seq<Byte>, a': seq<Byte>, b: seq<Byte>, b': seq<Byte>, kind: Kind)
    requires SamePlace(a, a', kind) && SamePlace(b, b', kind)
    ensures SamePlace(a + b, a' + b', kind)
  {
  }

  lemma CoveredPlaces(p: seq<Byte>, m: seq<Byte>, q: seq<Byte>)
    ensures (p + m + q)[|p|..|p| + |m|] == m
  {
  }

  /** What segment `g` claims is so: an equal-length segment is positional, and every other
      one is a single replacement, longer in source. */
  ghost predicate Truthful(g: InputSegment, text: seq<Byte>, source: seq<Byte>, start: nat, kind: Kind) {
    && g.decoded.start <= g.decoded.end <= |text|
    && start <= g.source.start <= g.source.end <= start + |source|
    && Claims(source[g.source.start - start..g.source.end - start], text[g.decoded.start..g.decoded.end], kind)
  }

  ghost predicate Claims(source: seq<Byte>, text: seq<Byte>, kind: Kind) {
    if |source| == |text| then SamePlace(source, text, kind)
    else |text| < |source| && OneReplacement(source, text, kind)
  }

  lemma SegmentReads(content: seq<Scalar>, start: nat, kind: Kind, limit: nat, i: nat)
    requires Decoded(content, start, kind, limit).Ok?
    requires i < |Decoded(content, start, kind, limit).value.inputMap|
    ensures var cooked := Decoded(content, start, kind, limit).value;
            Truthful(cooked.inputMap[i], cooked.text, Encode(content), start, kind)
  {
    hide *;
    DecodedReads(content, start, kind, limit);
    ScanGenuine(content, kind);
    StepsRead(Scan(content, kind).steps, start, kind, i);
  }

  lemma StepsRead(steps: seq<Step>, start: nat, kind: Kind, i: nat)
    requires AllGenuine(steps, kind) && i < |MapOf(steps, start)|
    ensures Truthful(MapOf(steps, start)[i], TextBytes(steps), SourceBytes(steps), start, kind)
  {
    hide *;
    MapOfCases(steps, start);
    if steps == [] {
      EmptyTruthful(steps, start, kind);
    } else {
      var p, m, q := SegmentAt(steps, 0, start, i);
      CoverTruthful(steps, kind, start, MapOf(steps, start)[i], p, m, q);
    }
  }

  lemma MapOfCases(steps: seq<Step>, start: nat)
    ensures MapOf(steps, start)
         == if steps == [] then [InputSegment(ByteRange(0, 0), ByteRange(start, start))] else Segments(steps, 0, start)
  {
  }

  lemma EmptyTruthful(steps: seq<Step>, start: nat, kind: Kind)
    requires steps == []
    ensures Truthful(InputSegment(ByteRange(0, 0), ByteRange(start, start)), TextBytes(steps), SourceBytes(steps), start, kind)
  {
  }

  lemma CoverTruthful(steps: seq<Step>, kind: Kind, start: nat, g: InputSegment, p: seq<Step>, m: seq<Step>, q: seq<Step>)
    requires AllGenuine(steps, kind) && Covers(steps, 0, start, g, p, m, q)
    ensures Truthful(g, TextBytes(steps), SourceBytes(steps), start, kind)
  {
    hide TextOf, SourceOf, Encode, SamePlace, OneReplacement;
    CoverReads(steps, kind, p, m, q);
  }

  lemma CoverReads(steps: seq<Step>, kind: Kind, p: seq<Step>, m: seq<Step>, q: seq<Step>)
    requires AllGenuine(steps, kind) && steps == p + m + q && OneSegment(m)
    ensures |TextBytes(p)| + |TextBytes(m)| <= |TextBytes(steps)|
    ensures |SourceBytes(p)| + |SourceBytes(m)| <= |SourceBytes(steps)|
    ensures TextBytes(steps)[|TextBytes(p)|..|TextBytes(p)| + |TextBytes(m)|] == TextBytes(m)
    ensures SourceBytes(steps)[|SourceBytes(p)|..|SourceBytes(p)| + |SourceBytes(m)|] == SourceBytes(m)
    ensures Claims(SourceBytes(m), TextBytes(m), kind)
  {
    hide TextOf, SourceOf, Encode, StandsAlone;
    BytesConcat(p + m, q);
    BytesConcat(p, m);
    CoveredPlaces(TextBytes(p), TextBytes(m), TextBytes(q));
    CoveredPlaces(SourceBytes(p), SourceBytes(m), SourceBytes(q));
    forall i | 0 <= i < |m|
      ensures Genuine(m[i], kind)
    {
      assert m[i] == steps[|p| + i];
    }
    if m[0].Positional? {
      RunKeepsPlace(m, kind);
    } else {
      assert m == [m[0]];
      OneStep(m[0]);
    }
  }

  /** Decoding never lengthens a literal. */
  lemma {:induction false} StepsShrink(steps: seq<Step>, kind: Kind)
    requires AllGenuine(steps, kind)
    ensures |TextBytes(steps)| <= |SourceBytes(steps)|
  {
    if steps == [] {
      NothingCovered();
    } else {
      var x, y := [steps[0]], steps[1..];
      StepsShrink(y, kind);
      assert steps == x + y;
      BytesConcat(x, y);
      OneStep(steps[0]);
      if steps[0].Positional? {
        EncodeOne(steps[0].written);
        EncodeOne(steps[0].read);
      }
    }
  }

  lemma TextNoLonger(content: seq<Scalar>, start: nat, kind: Kind, limit: nat)
    requires Decoded(content, start, kind, limit).Ok?
    ensures |Decoded(content, start, kind, limit).value.text| <= |Encode(content)|
  {
    hide *;
    DecodedReads(content, start, kind, limit);
    ScanGenuine(content, kind);
    StepsShrink(Scan(content, kind).steps, kind);
  }

  /** Runs are maximal: no positional segment follows another. */
  lemma RunsAreMaximal(content: seq<Scalar>, start: nat, kind: Kind, limit: nat, i: nat)
    requires Decoded(content, start, kind, limit).Ok?
    requires i + 1 < |Decoded(content, start, kind, limit).value.inputMap|
    ensures var map' := Decoded(content, start, kind, limit).value.inputMap;
            Positionless(map'[i]) || Positionless(map'[i + 1])
  {
    hide *;
    DecodedReads(content, start, kind, limit);
    ScanGenuine(content, kind);
    MapOfCases(Scan(content, kind).steps, start);
    NoTwoRuns(Scan(content, kind).steps, kind, 0, start, i);
  }

  predicate Positionless(g: InputSegment) {
    g.decoded.Length() != g.source.Length()
  }

  lemma {:induction false} NoTwoRuns(steps: seq<Step>, kind: Kind, d: nat, o: nat, i: nat)
    requires AllGenuine(steps, kind) && i + 1 < |Segments(steps, d, o)|
    ensures Positionless(Segments(steps, d, o)[i]) || Positionless(Segments(steps, d, o)[i + 1])
    decreases |steps|
  {
    hide TextOf, SourceOf, Encode, RunLength, Segments, StandsAlone, Head;
    SegmentsEmpty(steps, d, o);
    var x, y := steps[..Head(steps)], steps[Head(steps)..];
    HeadBorders(steps, x, y, d, o);
    UnfoldAfter(steps, x, y, d, o);
    var d', o' := d + |TextBytes(x)|, o + |SourceBytes(x)|;
    if i > 0 {
      NoTwoRuns(y, kind, d', o', i - 1);
    } else {
      SegmentsEmpty(y, d', o');
      FirstCovers(y, d', o');
      if x[0].Replacement? {
        LoneReplacement(x, kind, d, o);
      } else {
        assert y[0].Replacement?;
        LoneReplacement(y[..1], kind, d', o');
      }
    }
  }

  lemma FirstCovers(steps: seq<Step>, d: nat, o: nat)
    requires steps != []
    ensures Segments(steps, d, o) != []
    ensures steps[0].Replacement? ==> Segments(steps, d, o)[0] == Covering(steps[..1], d, o)
  {
  }

  lemma LoneReplacement(x: seq<Step>, kind: Kind, d: nat, o: nat)
    requires OneSegment(x) && x[0].Replacement? && Genuine(x[0], kind)
    ensures Positionless(Covering(x, d, o))
  {
    assert x == [x[0]];
    OneStep(x[0]);
  }

  // ---- the segment limit

  /** A map never needs more segments than the content has bytes, or one when it has none. */
  lemma {:induction false} FewSegments(steps: seq<Step>, d: nat, o: nat)
    requires forall i :: 0 <= i < |steps| ==> steps[i].Source() != []
    ensures |Segments(steps, d, o)| <= |SourceBytes(steps)|
    decreases |steps|
  {
    hide Encode, TextOf, SourceOf, RunLength;
    if steps != [] {
      var x, y := steps[..Head(steps)], steps[Head(steps)..];
      assert steps == x + y;
      UnfoldAfter(steps, x, y, d, o);
      FewSegments(y, d + |TextBytes(x)|, o + |SourceBytes(x)|);
      BytesConcat(x, y);
      NonemptySource(x);
    }
  }

  lemma NonemptySource(x: seq<Step>)
    requires x != [] && x[0].Source() != []
    ensures |SourceBytes(x)| >= 1
  {
  }

  lemma SettledShorter(steps: seq<Step>)
    ensures |Settled(steps)| <= |steps| && Settled(steps) == steps[..|Settled(steps)|]
  {
  }

  lemma StepsTake(content: seq<Scalar>, kind: Kind)
    ensures forall i :: 0 <= i < |Scan(content, kind).steps| ==> Scan(content, kind).steps[i].Source() != []
  {
    hide Next, Scan, SourceOf;
    var steps := Scan(content, kind).steps;
    forall i | 0 <= i < |steps|
      ensures steps[i].Source() != []
    {
      ScanStepAt(content, kind, i);
      NextConsumes(content[|SourceOf(steps[..i])|..], kind);
    }
  }

  /** What decoding comes to when the limit leaves room for one segment per byte. */
  function Free(content: seq<Scalar>, start: nat, kind: Kind): Result<Cooked, CookFailure> {
    Decoded(content, start, kind, |Encode(content)| + 1)
  }

  /** The limit decides nothing but whether the map fits: with room for one segment per byte it
      never binds, and a smaller limit gives the same literal exactly when its map has that many. */
  lemma SegmentLimitExact(content: seq<Scalar>, start: nat, kind: Kind, limit: nat)
    ensures var free := Free(content, start, kind);
            var bounded := Decoded(content, start, kind, limit);
            && free != Err(SegmentLimit)
            && (bounded.Ok? <==> free.Ok? && |free.value.inputMap| <= limit)
            && (bounded.Ok? ==> bounded == free)
            && (bounded.Err? && bounded != Err(SegmentLimit) ==> bounded == free)
            && (free.Err? ==> bounded == free || bounded == Err(SegmentLimit))
  {
    hide Scan, TextOf, SourceOf, Encode, Segments, Settled;
    var Scanned(steps, ending) := Scan(content, kind);
    ScanReads(content, kind);
    StepsTake(content, kind);
    FewSegments(steps, 0, start);
    var n := |SourceOf(steps)|;
    EncodeSplit(content, n);
    SettledShorter(steps);
    var k := |Settled(steps)|;
    FewSegments(Settled(steps), 0, start);
    assert steps == steps[..k] + steps[k..];
    BytesConcat(steps[..k], steps[k..]);
  }
}
