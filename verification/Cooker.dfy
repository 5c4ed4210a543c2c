/** The byte-level decoder of `crates/intlify_authoring_js/src/cooked.rs`.

    `Decode` reads source bytes, and everything it answers is settled by
    `Literal.Decoded` of the scalars those bytes spell. */
module Cooker {
  import opened Wrappers
  import opened Utf8
  import opened Literal
  import opened LiteralMap

  /** The largest `u32`, where `saturating_mul` and `saturating_add` stop. */
  const U32_MAX := 0xFFFF_FFFF

  function Saturated(n: nat): nat {
    if n > U32_MAX then U32_MAX else n
  }

  // ---- bytes seen as scalars

  /** The bytes from `at` to `end` spell `rest`, so both are scalar boundaries. */
  ghost predicate Spells(source: seq<Byte>, at: nat, end: nat, rest: seq<Scalar>) {
    at <= end <= |source| && source[at..end] == Encode(rest)
  }

  lemma ByteAt(source: seq<Byte>, at: nat, end: nat, rest: seq<Scalar>, k: nat)
    requires Spells(source, at, end, rest) && Ascii(rest, k)
    ensures |Encode(rest[..k])| == k && Spells(source, at + k, end, rest[k..])
    ensures k < |rest| <==> at + k < end
    ensures k < |rest| ==> (source[at + k] < 0x80 <==> rest[k] < 0x80)
    ensures k < |rest| && rest[k] < 0x80 ==> source[at + k] == rest[k]
  {
    AsciiPrefix(rest, k);
    assert source[at..end][k..] == source[at + k..end];
    assert k < |rest| ==> source[at + k] == source[at..end][k];
  }

  lemma Advance(source: seq<Byte>, at: nat, end: nat, rest: seq<Scalar>, k: nat)
    requires Spells(source, at, end, rest) && k <= |rest|
    ensures at + |Encode(rest[..k])| <= end
    ensures source[at..at + |Encode(rest[..k])|] == Encode(rest[..k])
    ensures Spells(source, at + |Encode(rest[..k])|, end, rest[k..])
  {
    hide Encode;
    EncodeSplit(rest, k);
    Cut(source, at, end, Encode(rest[..k]), Encode(rest[k..]));
  }

  lemma Cut<T>(source: seq<T>, at: nat, end: nat, front: seq<T>, back: seq<T>)
    requires at <= end <= |source| && source[at..end] == front + back
    ensures at + |front| <= end && source[at..at + |front|] == front && source[at + |front|..end] == back
  {
    assert |source[at..end]| == |front| + |back|;
    assert source[at..end][..|front|] == source[at..at + |front|];
    assert source[at..end][|front|..] == source[at + |front|..end];
  }

  function Hex(bytes: seq<Byte>, index: nat, end: nat): Option<nat>
    requires end <= |bytes|
  {
    if index < end && IsHex(bytes[index]) then Some(HexValue(bytes[index])) else None
  }

  lemma HexAt(source: seq<Byte>, at: nat, end: nat, rest: seq<Scalar>, k: nat)
    requires Spells(source, at, end, rest) && Ascii(rest, k)
    ensures Hex(source, at + k, end)
         == if k < |rest| && IsHex(rest[k]) then Some(HexValue(rest[k])) else None
  {
    ByteAt(source, at, end, rest, k);
  }

  function FourHexAt(bytes: seq<Byte>, first: nat, end: nat): Option<nat>
    requires end <= |bytes|
  {
    match (Hex(bytes, first, end), Hex(bytes, first + 1, end), Hex(bytes, first + 2, end), Hex(bytes, first + 3, end))
    case (Some(a), Some(b), Some(c), Some(d)) => Some(((a * 16 + b) * 16 + c) * 16 + d)
    case _ => None
  }

  lemma FourHexSpells(source: seq<Byte>, first: nat, end: nat, rest: seq<Scalar>)
    requires Spells(source, first, end, rest)
    ensures FourHex(rest) ==> FourHexAt(source, first, end) == Some(MV(rest[..4]))
    ensures !FourHex(rest) ==> FourHexAt(source, first, end) == None
  {
    HexAt(source, first, end, rest, 0);
    if |rest| > 0 && IsHex(rest[0]) {
      HexAt(source, first, end, rest, 1);
      if |rest| > 1 && IsHex(rest[1]) {
        HexAt(source, first, end, rest, 2);
        if |rest| > 2 && IsHex(rest[2]) {
          HexAt(source, first, end, rest, 3);
          if FourHex(rest) {
            MVFour(rest[..4]);
          }
        }
      }
    }
  }

  /** `take(4).take_while(hex).count()` over the bytes from `first`. */
  function HexCount(bytes: seq<Byte>, first: nat, end: nat, most: nat): nat
    requires end <= |bytes|
    decreases most
  {
    if most == 0 || Hex(bytes, first, end).None? then 0 else 1 + HexCount(bytes, first + 1, end, most - 1)
  }

  lemma {:induction false} HexCountSpells(source: seq<Byte>, first: nat, end: nat, rest: seq<Scalar>, most: nat)
    requires Spells(source, first, end, rest)
    ensures HexCount(source, first, end, most) == if HexRun(rest) < most then HexRun(rest) else most
    decreases most
  {
    HexAt(source, first, end, rest, 0);
    if most > 0 && rest != [] && IsHex(rest[0]) {
      ByteAt(source, first, end, rest, 1);
      HexCountSpells(source, first + 1, end, rest[1..], most - 1);
    }
  }

  predicate Special(byte: Byte, kind: Kind) {
    byte == BACKSLASH || (kind == TemplateLiteral && byte == CR)
  }

  /** `iter().position(special)`: the first byte that can change meaning, or `end`. */
  function Position(bytes: seq<Byte>, at: nat, end: nat, kind: Kind): (stop: nat)
    requires at <= end <= |bytes|
    ensures at <= stop <= end
    decreases end - at
  {
    if at == end || Special(bytes[at], kind) then at else Position(bytes, at + 1, end, kind)
  }

  /** How many scalars come before the next special one. */
  function PlainRun(s: seq<Scalar>, kind: Kind): (n: nat)
    ensures n <= |s|
  {
    if s == [] || s[0] == BACKSLASH || (kind == TemplateLiteral && s[0] == CR) then 0
    else 1 + PlainRun(s[1..], kind)
  }

  lemma {:induction false} PositionSkips(bytes: seq<Byte>, at: nat, end: nat, kind: Kind, w: nat)
    requires at + w <= end <= |bytes|
    requires forall i :: at <= i < at + w ==> !Special(bytes[i], kind)
    ensures Position(bytes, at, end, kind) == Position(bytes, at + w, end, kind)
    decreases w
  {
    if w > 0 {
      PositionSkips(bytes, at + 1, end, kind, w - 1);
    }
  }

  lemma PositionSkipsScalar(source: seq<Byte>, at: nat, end: nat, rest: seq<Scalar>, kind: Kind)
    requires Spells(source, at, end, rest) && PlainRun(rest, kind) > 0
    ensures at + Width(rest[0]) <= end && Spells(source, at + Width(rest[0]), end, rest[1..])
    ensures Position(source, at, end, kind) == Position(source, at + Width(rest[0]), end, kind)
  {
    Advance(source, at, end, rest, 1);
    assert rest[..1] == [rest[0]];
    EncodeOne(rest[0]);
    var w := Width(rest[0]);
    forall i | at <= i < at + w
      ensures !Special(source[i], kind)
    {
      assert source[i] == source[at..at + w][i - at] == EncodeScalar(rest[0])[i - at];
    }
    PositionSkips(source, at, end, kind, w);
  }

  /** A special byte is ASCII, so the search never stops inside a scalar. */
  lemma {:induction false} PositionIsBoundary(source: seq<Byte>, at: nat, end: nat, rest: seq<Scalar>, kind: Kind)
    requires Spells(source, at, end, rest)
    ensures Position(source, at, end, kind) == at + |Encode(rest[..PlainRun(rest, kind)])|
    decreases |rest|
  {
    if rest == [] {
    } else if PlainRun(rest, kind) == 0 {
      ByteAt(source, at, end, rest, 0);
    } else {
      var n := PlainRun(rest, kind);
      assert rest[..n][0] == rest[0] && rest[..n][1..] == rest[1..][..n - 1];
      assert Encode(rest[..n]) == EncodeScalar(rest[0]) + Encode(rest[1..][..n - 1]);
      hide Encode, EncodeScalar;
      PositionSkipsScalar(source, at, end, rest, kind);
      PositionIsBoundary(source, at + Width(rest[0]), end, rest[1..], kind);
    }
  }

  // ---- the plain run

  function PlainSteps(s: seq<Scalar>): (steps: seq<Step>)
    ensures |steps| == |s|
    ensures forall i :: 0 <= i < |s| ==> steps[i] == Positional(s[i], s[i])
  {
    seq(|s|, i requires 0 <= i < |s| => Positional(s[i], s[i]))
  }

  lemma {:induction false} PlainStepsKeepText(s: seq<Scalar>)
    ensures TextOf(PlainSteps(s)) == s == SourceOf(PlainSteps(s))
  {
    if s != [] {
      assert PlainSteps(s)[1..] == PlainSteps(s[1..]);
      PlainStepsKeepText(s[1..]);
      assert s == [s[0]] + s[1..];
    }
  }

  lemma {:induction false} ScanPlain(s: seq<Scalar>, kind: Kind, n: nat)
    requires n <= PlainRun(s, kind)
    ensures Scan(s, kind) == Prepend(PlainSteps(s[..n]), Scan(s[n..], kind))
    decreases n
  {
    if n == 0 {
      assert s[0..] == s;
      assert PlainSteps(s[..0]) == [];
    } else {
      var p := Positional(s[0], s[0]);
      var plain := PlainSteps(s[1..][..n - 1]);
      assert PlainRun(s, kind) == 1 + PlainRun(s[1..], kind) && Next(s, kind) == Take(p);
      hide Scan, Next, PlainRun;
      ScanPlain(s[1..], kind, n - 1);
      ScanTakes(s, kind, p);
      assert s[1..][n - 1..] == s[n..];
      assert PlainSteps(s[..n]) == [p] + plain;
      PrependPrepend([p], plain, Scan(s[n..], kind));
    }
  }

  // ---- decoded text under construction

  predicate AllAligned(steps: seq<Step>) {
    forall i :: 0 <= i < |steps| ==> Aligned(steps[i])
  }

  predicate AllPositional(steps: seq<Step>) {
    forall i :: 0 <= i < |steps| ==> steps[i].Positional?
  }

  /** A run of positional steps is as long in source as in text. */
  lemma {:induction false} PositionalLength(steps: seq<Step>)
    requires AllPositional(steps) && AllAligned(steps)
    ensures |TextBytes(steps)| == |SourceBytes(steps)|
  {
    if steps != [] {
      PositionalLength(steps[1..]);
      assert steps == [steps[0]] + steps[1..];
      BytesConcat([steps[0]], steps[1..]);
      assert TextOf([steps[0]]) == [steps[0].read] && SourceOf([steps[0]]) == [steps[0].written];
      EncodeOne(steps[0].read);
      EncodeOne(steps[0].written);
    }
  }

  function NewRange(start: nat, end: nat): Result<ByteRange, CookFailure> {
    if end < start then Err(Disagreement) else Ok(ByteRange(start, end))
  }

  /** `text`, `inputMap` and `run` are what `steps` come to, of which the first `settled` came before the open run. */
  ghost predicate Tracks(steps: seq<Step>, settled: nat, start: nat,
                         text: seq<Byte>, inputMap: seq<InputSegment>, run: Option<(nat, nat)>)
  {
    && settled <= |steps| && AllAligned(steps) && AllPositional(steps[settled..])
    && (settled > 0 ==> steps[settled - 1].Replacement?)
    && text == TextBytes(steps)
    && inputMap == Segments(steps[..settled], 0, start)
    && run == RunAfter(steps, settled, start)
  }

  ghost function RunAfter(steps: seq<Step>, settled: nat, start: nat): Option<(nat, nat)>
    requires settled <= |steps|
  {
    if settled == |steps| then None
    else Some((|TextBytes(steps[..settled])|, start + |SourceBytes(steps[..settled])|))
  }

  /** What the open run claims when decoded text is `length` bytes long. */
  function RunSegment(run: (nat, nat), length: nat): InputSegment
    requires run.0 <= length
  {
    InputSegment(ByteRange(run.0, length), ByteRange(run.1, run.1 + (length - run.0)))
  }

  /** The open run answers for as many bytes of source as of text, so it is contiguous on both sides. */
  lemma TracksRun(steps: seq<Step>, settled: nat, start: nat,
                  text: seq<Byte>, inputMap: seq<InputSegment>, run: Option<(nat, nat)>)
    requires Tracks(steps, settled, start, text, inputMap, run)
    ensures run.Some? ==> run.value.0 <= |text| && |text| - run.value.0 == start + |SourceBytes(steps)| - run.value.1
    ensures run.None? ==> inputMap == Segments(steps, 0, start)
    ensures run.Some? ==> Segments(steps, 0, start) == inputMap + [RunSegment(run.value, |text|)]
  {
    hide TextOf, SourceOf, Encode, Segments, RunLength;
    var a, b := steps[..settled], steps[settled..];
    assert steps == a + b && steps[..|steps|] == steps;
    if b != [] {
      PositionalLength(b);
      BytesConcat(a, b);
      SegmentsSnoc(a, b, 0, start);
    }
  }

  lemma TracksVerbatim(steps: seq<Step>, settled: nat, start: nat,
                       text: seq<Byte>, inputMap: seq<InputSegment>, run: Option<(nat, nat)>, more: seq<Step>)
    requires Tracks(steps, settled, start, text, inputMap, run)
    requires more != [] && AllPositional(more) && AllAligned(more)
    ensures Tracks(steps + more, settled, start, text + TextBytes(more), inputMap,
                   Some(if run.Some? then run.value else (|text|, start + |SourceBytes(steps)|)))
  {
    hide TextOf, SourceOf, Encode, Segments, RunLength;
    BytesConcat(steps, more);
    assert (steps + more)[..settled] == steps[..settled];
    assert (steps + more)[settled..] == steps[settled..] + more;
    if settled == |steps| {
      assert steps[..settled] == steps;
    }
  }

  lemma TracksReplaced(steps: seq<Step>, start: nat, step: Step)
    requires AllAligned(steps) && step.Replacement?
    ensures Segments(steps + [step], 0, start)
         == Segments(steps, 0, start)
            + [InputSegment(ByteRange(|TextBytes(steps)|, |TextBytes(steps)| + |Encode(step.piece)|),
                            ByteRange(start + |SourceBytes(steps)|, start + |SourceBytes(steps)| + |Encode(step.spelling)|))]
    ensures Tracks(steps + [step], |steps| + 1, start, TextBytes(steps) + Encode(step.piece),
                   Segments(steps + [step], 0, start), None)
  {
    OneStep(step);
    hide TextOf, SourceOf, Encode, Segments, RunLength;
    SegmentsSnoc(steps, [step], 0, start);
    BytesConcat(steps, [step]);
    assert AllPositional((steps + [step])[|steps| + 1..]);
    assert (steps + [step])[..|steps| + 1] == steps + [step];
  }

  class Output {
    var text: seq<Byte>
    var inputMap: seq<InputSegment>
    const limit: nat
    /** The two offsets at which the run not yet in the map starts, if there is such a run. */
    var run: Option<(nat, nat)>

    /** Where the literal's content begins. */
    ghost const start: nat
    /** Everything decoded so far, and how much of it came before the open run. */
    ghost var steps: seq<Step>
    ghost var settled: nat

    constructor (limit: nat, ghost start: nat)
      ensures Valid() && steps == [] && this.limit == limit && this.start == start
    {
      text, inputMap, run := [], [], None;
      this.limit, this.start := limit, start;
      steps, settled := [], 0;
    }

    ghost predicate Valid()
      reads this
    {
      Tracks(steps, settled, start, text, inputMap, run) && |inputMap| <= limit
    }

    /** Keeps the state tracking the steps read, with `more` added to them. */
    method Verbatim(piece: seq<Byte>, sourceAt: nat, ghost more: seq<Step>)
      requires Valid()
      requires more != [] && AllPositional(more) && AllAligned(more)
      requires piece == TextBytes(more) && sourceAt == start + |SourceBytes(steps)|
      modifies this
      ensures Valid() && steps == old(steps) + more
    {
      hide TextOf, SourceOf, Encode, Segments, RunLength;
      TracksRun(steps, settled, start, text, inputMap, run);
      TracksVerbatim(steps, settled, start, text, inputMap, run, more);
      var (decoded, origin) := if run.Some? then run.value else (|text|, sourceAt);
      run := Some((decoded, origin));
      assert sourceAt - origin == |text| - decoded;
      text := text + piece;
      steps := steps + more;
    }

    /** Fails exactly when the segments of everything read so far, this step included, are over the limit. */
    method Replaced(piece: seq<Byte>, at: nat, end: nat, ghost step: Step) returns (r: Result<(), CookFailure>)
      requires Valid() && step.Replacement?
      requires piece == Encode(step.piece) && |piece| < |Encode(step.spelling)|
      requires at == start + |SourceBytes(steps)| && end == at + |Encode(step.spelling)|
      modifies this
      ensures r == if |Segments(old(steps) + [step], 0, start)| <= limit then Ok(()) else Err(SegmentLimit)
      ensures r.Ok? ==> Valid() && steps == old(steps) + [step]
    {
      hide TextOf, SourceOf, Encode, Segments, RunLength;
      TracksReplaced(steps, start, step);
      var _ :- Close();
      assert |piece| != end - at;
      var decoded := |text|;
      text := text + piece;
      var _ :- Segment(decoded, |text|, at, end);
      settled := |steps| + 1;
      steps := steps + [step];
      return Ok(());
    }

    method Close() returns (r: Result<(), CookFailure>)
      requires Valid()
      modifies this`run, this`inputMap
      ensures r == if |Segments(steps, 0, start)| <= limit then Ok(()) else Err(SegmentLimit)
      ensures r.Ok? ==> run == None && inputMap == Segments(steps, 0, start)
    {
      hide TextOf, SourceOf, Encode, Segments, RunLength;
      TracksRun(steps, settled, start, text, inputMap, run);
      if run.Some? {
        var (decoded, origin) := run.value;
        run := None;
        var length := |text| - decoded;
        var _ :- Segment(decoded, |text|, origin, origin + length);
      }
      return Ok(());
    }

    method Segment(decodedStart: nat, decodedEnd: nat, sourceStart: nat, sourceEnd: nat)
      returns (r: Result<(), CookFailure>)
      modifies this`inputMap
      ensures r == if |old(inputMap)| >= limit then Err(SegmentLimit)
                   else if decodedEnd < decodedStart || sourceEnd < sourceStart then Err(Disagreement)
                   else Ok(())
      ensures inputMap == old(inputMap)
                        + if r.Ok? then [InputSegment(ByteRange(decodedStart, decodedEnd), ByteRange(sourceStart, sourceEnd))]
                          else []
    {
      if |inputMap| >= limit {
        return Err(SegmentLimit);
      }
      var decoded :- NewRange(decodedStart, decodedEnd);
      var source :- NewRange(sourceStart, sourceEnd);
      inputMap := inputMap + [InputSegment(decoded, source)];
      return Ok(());
    }

    method Finish(at: nat) returns (r: Result<Cooked, CookFailure>)
      requires Valid() && at == start
      modifies this`run, this`inputMap
      ensures r == if |MapOf(steps, start)| <= limit then Ok(Cooked(TextBytes(steps), MapOf(steps, start)))
                   else Err(SegmentLimit)
    {
      SegmentsEmpty(steps, 0, start);
      hide TextOf, SourceOf, Encode, Segments, RunLength;
      var _ :- Close();
      if |inputMap| == 0 {
        var _ :- Segment(0, 0, at, at);
      }
      assert inputMap == MapOf(steps, start);
      assert text == TextBytes(steps);
      return Ok(Cooked(text, inputMap));
    }
  }

  // ---- the decoder

  /** What an escape at byte `at` answers, and what it leaves in the output. */
  ghost predicate Answers(reading: Reading, before: seq<Step>, start: nat, at: nat, limit: nat,
                          r: Result<nat, CookFailure>, after: seq<Step>)
  {
    match reading
    case Take(step) =>
      if |Segments(before + [step], 0, start)| <= limit then
        r == Ok(at + |Encode(step.Source())|) && after == before + [step]
      else r == Err(SegmentLimit)
    case Refuse(form, length) => r == Err(UnsupportedForm(form, ByteRange(at, at + length)))
    case Disagree => r == Err(Disagreement)
  }

  method Replace(output: Output, piece: seq<Byte>, at: nat, end: nat, ghost rest: seq<Scalar>, ghost kind: Kind)
    returns (r: Result<nat, CookFailure>)
    requires output.Valid() && at == output.start + |SourceBytes(output.steps)|
    requires rest != [] && Next(rest, kind).Take? && Next(rest, kind).step.Replacement?
    requires piece == Encode(Next(rest, kind).step.piece) && end == at + |Encode(Next(rest, kind).step.spelling)|
    modifies output
    ensures Answers(Next(rest, kind), old(output.steps), output.start, at, output.limit, r, output.steps)
    ensures r.Ok? ==> output.Valid()
  {
    hide TextOf, SourceOf, Encode, Segments, RunLength, Escape;
    StepShrinks(rest, kind);
    var _ :- output.Replaced(piece, at, end, Next(rest, kind).step);
    return Ok(end);
  }

  /** A malformed escape: strings blame the parser, templates name the bytes. */
  method Invalid(kind: Kind, at: nat, stop: nat) returns (r: Result<nat, CookFailure>)
    requires at <= stop
    ensures r == match kind
                 case StringLiteral => Err(Disagreement)
                 case TemplateLiteral => Err(UnsupportedForm(TemplateEscapeInvalid, ByteRange(at, stop)))
  {
    match kind
    case StringLiteral => return Err(Disagreement);
    case TemplateLiteral =>
      r := Unsupported(TemplateEscapeInvalid, at, stop);
  }

  method Unsupported(form: Unsupported, at: nat, stop: nat) returns (r: Result<nat, CookFailure>)
    requires at <= stop
    ensures r == Err(UnsupportedForm(form, ByteRange(at, stop)))
  {
    var range := NewRange(at, stop);
    return match range case Ok(range) => Err(UnsupportedForm(form, range)) case Err(e) => Err(e);
  }

  /** Agrees byte by byte with the length the grammar of legacy escapes gives. */
  method LegacyEnd(bytes: seq<Byte>, first: nat, end: nat, ghost rest: seq<Scalar>) returns (stop: nat)
    requires Spells(bytes, first, end, rest) && rest != [] && IsDigit(rest[0])
    ensures stop == first + LegacyLength(rest)
  {
    ByteAt(bytes, first, end, rest, 0);
    var longest := if 0x30 <= bytes[first] <= 0x33 then 3 else if 0x34 <= bytes[first] <= 0x37 then 2 else 1;
    stop := first + 1;
    ByteAt(bytes, first, end, rest, 1);
    while stop - first < longest && stop < end && IsOctal(bytes[stop])
      invariant first < stop <= first + longest && stop - first <= |rest|
      invariant Ascii(rest, stop - first)
      invariant forall i :: 1 <= i < stop - first ==> IsOctal(rest[i])
      invariant stop - first < |rest| <==> stop < end
      invariant stop < end ==> (IsOctal(bytes[stop]) <==> IsOctal(rest[stop - first]))
    {
      stop := stop + 1;
      ByteAt(bytes, first, end, rest, stop - first);
    }
  }

  /** The digits read so far and the saturating accumulator over them. */
  lemma SaturatedStep(ds: seq<Scalar>, value: nat, digit: Scalar)
    requires AllHex(ds) && IsHex(digit) && value == Saturated(MV(ds))
    ensures AllHex(ds + [digit])
    ensures Saturated(Saturated(value * 16) + HexValue(digit)) == Saturated(MV(ds + [digit]))
  {
    assert (ds + [digit])[..|ds|] == ds;
  }

  /** Answers the reading of a content that opens with `\u`. */
  method Unicode(bytes: seq<Byte>, at: nat, end: nat, kind: Kind, output: Output, ghost rest: seq<Scalar>)
    returns (r: Result<nat, CookFailure>)
    requires Spells(bytes, at, end, rest) && |rest| >= 2 && rest[0] == BACKSLASH && rest[1] == LOWER_U
    requires output.Valid() && at == output.start + |SourceBytes(output.steps)|
    modifies output
    ensures Answers(Next(rest, kind), old(output.steps), output.start, at, output.limit, r, output.steps)
    ensures r.Ok? ==> output.Valid()
  {
    hide TextOf, SourceOf, Encode, Segments, RunLength, EncodeScalar;
    var marker := at + 1;
    ByteAt(bytes, at, end, rest, 2);
    if marker + 1 < end && bytes[marker + 1] == OPEN_BRACE {
      var first := marker + 2;
      r := Braced(bytes, at, first, end, kind, output, rest);
    } else {
      r := FourDigits(bytes, at, marker, end, kind, output, rest);
    }
  }

  /** Read the digits of a braced escape, which saturate rather than wrap. */
  method Digits(bytes: seq<Byte>, first: nat, end: nat, ghost rest: seq<Scalar>) returns (stop: nat, value: nat)
    requires Spells(bytes, first, end, rest)
    ensures stop == first + HexRun(rest) && value == Saturated(MV(rest[..HexRun(rest)]))
  {
    stop, value := first, 0;
    HexAt(bytes, first, end, rest, 0);
    while Hex(bytes, stop, end).Some?
      invariant first <= stop && stop - first <= |rest|
      invariant AllHex(rest[..stop - first]) && value == Saturated(MV(rest[..stop - first]))
      invariant Ascii(rest, stop - first)
      invariant Hex(bytes, stop, end)
             == if stop - first < |rest| && IsHex(rest[stop - first]) then Some(HexValue(rest[stop - first])) else None
      decreases |rest| - (stop - first)
    {
      ghost var n := stop - first;
      SaturatedStep(rest[..n], value, rest[n]);
      assert rest[..n] + [rest[n]] == rest[..n + 1];
      value := Saturated(Saturated(value * 16) + Hex(bytes, stop, end).value);
      stop := stop + 1;
      HexAt(bytes, first, end, rest, n + 1);
    }
    HexRunIs(rest, stop - first);
  }

  method Braced(bytes: seq<Byte>, at: nat, first: nat, end: nat, kind: Kind, output: Output, ghost rest: seq<Scalar>)
    returns (r: Result<nat, CookFailure>)
    requires Spells(bytes, at, end, rest) && |rest| >= 3 && first == at + 3
    requires rest[0] == BACKSLASH && rest[1] == LOWER_U && rest[2] == OPEN_BRACE
    requires output.Valid() && at == output.start + |SourceBytes(output.steps)|
    modifies output
    ensures Answers(Next(rest, kind), old(output.steps), output.start, at, output.limit, r, output.steps)
    ensures r.Ok? ==> output.Valid()
  {
    hide TextOf, SourceOf, Encode, Segments, RunLength, EncodeScalar, Next, MV, HexRun;
    BracedReads(rest, kind);
    ByteAt(bytes, at, end, rest, 3);
    var stop, value := Digits(bytes, first, end, rest[3..]);
    ByteAt(bytes, at, end, rest, stop - at);
    if stop == first {
      r := Invalid(kind, at, first);
      return;
    }
    if value > MAX_SCALAR || stop >= end || bytes[stop] != CLOSE_BRACE {
      r := Invalid(kind, at, stop);
      return;
    }
    var close := stop + 1;
    if 0xD800 <= value <= 0xDFFF {
      r := Unsupported(SurrogateEscape, at, close);
      return;
    }
    ByteAt(bytes, at, end, rest, close - at);
    r := Replace(output, Encode([value]), at, close, rest, kind);
  }

  method FourDigits(bytes: seq<Byte>, at: nat, marker: nat, end: nat, kind: Kind, output: Output, ghost rest: seq<Scalar>)
    returns (r: Result<nat, CookFailure>)
    requires Spells(bytes, at, end, rest) && |rest| >= 2 && marker == at + 1
    requires rest[0] == BACKSLASH && rest[1] == LOWER_U && (|rest| > 2 ==> rest[2] != OPEN_BRACE)
    requires output.Valid() && at == output.start + |SourceBytes(output.steps)|
    modifies output
    ensures Answers(Next(rest, kind), old(output.steps), output.start, at, output.limit, r, output.steps)
    ensures r.Ok? ==> output.Valid()
  {
    hide TextOf, SourceOf, Encode, Segments, RunLength, EncodeScalar, Next, MV, HexRun, HexCount;
    FourRead(rest, kind);
    ByteAt(bytes, at, end, rest, 2);
    FourHexSpells(bytes, marker + 1, end, rest[2..]);
    var four := FourHexAt(bytes, marker + 1, end);
    if four.None? {
      var digits := HexCount(bytes, marker + 1, end, 4);
      HexCountSpells(bytes, marker + 1, end, rest[2..], 4);
      assert Next(rest, kind) == Literal.Invalid(kind, 2 + digits);
      r := Invalid(kind, at, marker + 1 + digits);
      return;
    }
    var unit := four.value;
    var stop := marker + 5;
    ByteAt(bytes, at, end, rest, 6);
    if IsHighSurrogate(unit) {
      r := HighSurrogate(bytes, at, stop, end, unit, kind, output, rest);
    } else if IsLowSurrogate(unit) {
      r := Unsupported(SurrogateEscape, at, stop);
    } else {
      r := Replace(output, Encode([unit]), at, stop, rest, kind);
    }
  }

  /** Answers the reading of a high half, whose only partner is the escape right after it. */
  method HighSurrogate(bytes: seq<Byte>, at: nat, stop: nat, end: nat, unit: nat, kind: Kind, output: Output,
                       ghost rest: seq<Scalar>)
    returns (r: Result<nat, CookFailure>)
    requires Spells(bytes, at, end, rest) && |rest| >= 6 && stop == at + 6
    requires rest[0] == BACKSLASH && rest[1] == LOWER_U && rest[2] != OPEN_BRACE
    requires FourHex(rest[2..]) && unit == MV(rest[2..][..4]) && IsHighSurrogate(unit)
    requires output.Valid() && at == output.start + |SourceBytes(output.steps)|
    modifies output
    ensures Answers(Next(rest, kind), old(output.steps), output.start, at, output.limit, r, output.steps)
    ensures r.Ok? ==> output.Valid()
  {
    hide TextOf, SourceOf, Encode, Segments, RunLength, EncodeScalar, Next, MV, HexRun, HexCount;
    FourRead(rest, kind);
    ByteAt(bytes, at, end, rest, 6);
    if |rest| > 6 && rest[6] == BACKSLASH {
      ByteAt(bytes, at, end, rest, 7);
      if |rest| > 7 && rest[7] == LOWER_U {
        ByteAt(bytes, at, end, rest, 8);
        FourHexSpells(bytes, stop + 2, end, rest[8..]);
      }
    }
    var spelledNext := stop + 1 < end && bytes[stop] == BACKSLASH && bytes[stop + 1] == LOWER_U;
    var low := if spelledNext then FourHexAt(bytes, stop + 2, end) else None;
    if low.None? || !IsLowSurrogate(low.value) {
      r := Unsupported(SurrogateEscape, at, stop);
      return;
    }
    ByteAt(bytes, at, end, rest, 12);
    r := Replace(output, Encode([Paired(unit, low.value)]), at, stop + 6, rest, kind);
  }

  /** Answers the reading of any content that opens with a backslash. */
  method EscapeAt(source: seq<Byte>, at: nat, end: nat, kind: Kind, output: Output, ghost rest: seq<Scalar>)
    returns (r: Result<nat, CookFailure>)
    requires Spells(source, at, end, rest) && rest != [] && rest[0] == BACKSLASH
    requires output.Valid() && at == output.start + |SourceBytes(output.steps)|
    modifies output
    ensures Answers(Next(rest, kind), old(output.steps), output.start, at, output.limit, r, output.steps)
    ensures r.Ok? ==> output.Valid()
  {
    hide TextOf, SourceOf, Encode, Segments, RunLength, EncodeScalar, Literal.Unicode, LegacyLength, FirstScalar;
    var next := at + 1;
    ByteAt(source, at, end, rest, 1);
    if next >= end {
      return Err(Disagreement);
    }
    Advance(source, at, end, rest, 2);
    EscapeWidth(rest);
    if rest[1] < 0x80 {
      ByteAt(source, at, end, rest, 2);
    }
    var byte := source[next];
    if byte == LF {
      r := Replace(output, Encode([]), at, next + 1, rest, kind);
    } else if byte == CR {
      var stop := if next + 1 < end && source[next + 1] == LF then next + 2 else next + 1;
      if stop == next + 2 {
        ByteAt(source, at, end, rest, 3);
      }
      r := Replace(output, Encode([]), at, stop, rest, kind);
    } else if byte == LOWER_B {
      r := Replace(output, Encode([BS]), at, next + 1, rest, kind);
    } else if byte == LOWER_F {
      r := Replace(output, Encode([FF]), at, next + 1, rest, kind);
    } else if byte == LOWER_N {
      r := Replace(output, Encode([LF]), at, next + 1, rest, kind);
    } else if byte == LOWER_R {
      r := Replace(output, Encode([CR]), at, next + 1, rest, kind);
    } else if byte == LOWER_T {
      r := Replace(output, Encode([TAB]), at, next + 1, rest, kind);
    } else if byte == LOWER_V {
      r := Replace(output, Encode([VT]), at, next + 1, rest, kind);
    } else if byte == DIGIT_ZERO && !(next + 1 < end && IsDigit(source[next + 1])) {
      r := Replace(output, Encode([0]), at, next + 1, rest, kind);
    } else if IsDigit(byte) {
      match kind
      case StringLiteral =>
        var stop := LegacyEnd(source, next, end, rest[1..]);
        r := Unsupported(LegacyEscape, at, stop);
      case TemplateLiteral =>
        r := Unsupported(TemplateEscapeInvalid, at, if byte == DIGIT_ZERO then next + 2 else next + 1);
    } else if byte == LOWER_X {
      r := HexEscape(source, at, next, end, kind, output, rest);
    } else if byte == LOWER_U {
      r := Unicode(source, at, end, kind, output, rest);
    } else {
      HeadScalar(source, next, end, rest[1..]);
      var character := FirstScalar(source[next..]);
      if character.None? {
        return Err(Disagreement);
      }
      var stop := next + Width(character.value);
      if stop > end {
        return Err(Disagreement);
      }
      if character.value == LS || character.value == PS {
        r := Replace(output, Encode([]), at, stop, rest, kind);
      } else {
        r := Replace(output, Encode([character.value]), at, stop, rest, kind);
      }
    }
  }

  lemma EscapeWidth(s: seq<Scalar>)
    requires |s| >= 2 && s[0] == BACKSLASH
    ensures |Encode(s[..2])| == 1 + Width(s[1])
  {
    assert s[..2] == [s[0]] + [s[1]];
    EncodeConcat([s[0]], [s[1]]);
    EncodeOne(s[0]);
    EncodeOne(s[1]);
  }

  lemma HeadScalar(source: seq<Byte>, at: nat, end: nat, rest: seq<Scalar>)
    requires Spells(source, at, end, rest) && rest != []
    ensures FirstScalar(source[at..]) == Some(rest[0])
  {
    Advance(source, at, end, rest, 1);
    assert rest[..1] == [rest[0]];
    EncodeOne(rest[0]);
    hide Encode, EncodeScalar, FirstScalar;
    var w := Width(rest[0]);
    assert source[at..][..w] == source[at..at + w];
    FirstScalarIsHead(source[at..], rest[0]);
  }

  method HexEscape(source: seq<Byte>, at: nat, next: nat, end: nat, kind: Kind, output: Output, ghost rest: seq<Scalar>)
    returns (r: Result<nat, CookFailure>)
    requires Spells(source, at, end, rest) && next == at + 1
    requires |rest| >= 2 && rest[0] == BACKSLASH && rest[1] == LOWER_X
    requires output.Valid() && at == output.start + |SourceBytes(output.steps)|
    modifies output
    ensures Answers(Next(rest, kind), old(output.steps), output.start, at, output.limit, r, output.steps)
    ensures r.Ok? ==> output.Valid()
  {
    hide TextOf, SourceOf, Encode, Segments, RunLength, EncodeScalar;
    HexAt(source, at, end, rest, 2);
    if |rest| > 2 && IsHex(rest[2]) {
      HexAt(source, at, end, rest, 3);
      if |rest| > 3 && IsHex(rest[3]) {
        ByteAt(source, at, end, rest, 4);
      }
    }
    match (Hex(source, next + 1, end), Hex(source, next + 2, end))
    case (Some(high), Some(low)) =>
      r := Replace(output, Encode([high * 16 + low]), at, next + 3, rest, kind);
    case (Some(_), None) =>
      r := Invalid(kind, at, next + 2);
    case (None, _) =>
      r := Invalid(kind, at, next + 1);
  }

  lemma {:induction false} SettledIs(steps: seq<Step>, settled: nat)
    requires settled <= |steps| && AllPositional(steps[settled..]) && (settled > 0 ==> steps[settled - 1].Replacement?)
    ensures Settled(steps) == steps[..settled]
    decreases |steps|
  {
    if settled < |steps| {
      var n := |steps| - 1;
      assert steps[settled..][n - settled] == steps[n];
      assert steps[..n][settled..] == steps[settled..][..n - settled];
      SettledIs(steps[..n], settled);
      assert steps[..n][..settled] == steps[..settled];
    } else {
      assert steps[..settled] == steps;
    }
  }

  /** Later steps never give a claimed segment back, so a limit once exceeded stays exceeded. */
  lemma LimitStays(before: seq<Step>, step: Step, more: seq<Step>, ending: Ending, start: nat, limit: nat)
    requires step.Replacement? && |Segments(before + [step], 0, start)| > limit
    ensures Outcome(before + [step] + more, ending, start, limit) == Err(SegmentLimit)
  {
    hide TextOf, SourceOf, Encode, Segments, RunLength;
    var a := before + [step];
    var k := LastReplacement(a + more, |a| - 1);
    SettledIs(a + more, k);
    assert (a + more)[..k] == a + more[..k - |a|];
    SegmentsConcat(a, more[..k - |a|], 0, start, |TextBytes(a)|, start + |SourceBytes(a)|);
    SegmentsConcat(a, more, 0, start, |TextBytes(a)|, start + |SourceBytes(a)|);
  }

  lemma LastReplacement(steps: seq<Step>, known: nat) returns (k: nat)
    requires known < |steps| && steps[known].Replacement?
    ensures known < k <= |steps| && steps[k - 1].Replacement? && AllPositional(steps[k..])
  {
    k := |steps|;
    while steps[k - 1].Positional?
      invariant known < k <= |steps| && AllPositional(steps[k..])
      decreases k
    {
      k := k - 1;
    }
  }

  /** `before` has been taken and `rest` is left. */
  ghost predicate Reached(content: seq<Scalar>, kind: Kind, before: seq<Step>, rest: seq<Scalar>) {
    Scan(content, kind) == Prepend(before, Scan(rest, kind))
  }

  lemma ReachedNothing(content: seq<Scalar>, kind: Kind)
    ensures Reached(content, kind, [], content) && SourceBytes([]) == []
  {
    assert [] + Scan(content, kind).steps == Scan(content, kind).steps;
  }

  lemma ReachedEnd(content: seq<Scalar>, kind: Kind, before: seq<Step>, rest: seq<Scalar>)
    requires Reached(content, kind, before, rest) && Encode(rest) == []
    ensures Scan(content, kind) == Scanned(before, Complete)
  {
    assert before + [] == before;
  }

  /** The plain run is over, so what comes next is an escape, a CRLF or a lone CR. */
  lemma SpecialReads(source: seq<Byte>, at: nat, end: nat, rest: seq<Scalar>, kind: Kind)
    requires Spells(source, at, end, rest) && at < end && Position(source, at, end, kind) == at
    ensures rest != [] && rest[0] == source[at] < 0x80 && Encode(rest[..1]) == [source[at]]
    ensures source[at] == BACKSLASH && Next(rest, kind).Take? ==> Next(rest, kind).step.Replacement?
    ensures source[at] != BACKSLASH ==>
              && kind.TemplateLiteral? && source[at] == CR
              && (if at + 1 < end && source[at + 1] == LF then
                    |rest| >= 2 && Next(rest, kind) == Take(Replacement(rest[..2], [LF])) && |Encode(rest[..2])| == 2
                  else Next(rest, kind) == Take(Positional(CR, LF)))
  {
    hide Encode;
    ByteAt(source, at, end, rest, 0);
    ByteAt(source, at, end, rest, 1);
    EncodeOne(rest[0]);
    assert rest[..1] == [rest[0]];
    if |rest| > 1 && rest[1] == LF {
      ByteAt(source, at, end, rest, 2);
    }
  }

  lemma LoneReturn()
    ensures TextBytes([Positional(CR, LF)]) == Encode([LF]) && SourceBytes([Positional(CR, LF)]) == Encode([CR])
    ensures |Encode([CR])| == 1
  {
    OneStep(Positional(CR, LF));
    EncodeOne(CR);
  }

  lemma ReachedAfter(content: seq<Scalar>, kind: Kind, before: seq<Step>, rest: seq<Scalar>, step: Step)
    requires Reached(content, kind, before, rest)
    requires rest != [] && Next(rest, kind) == Take(step)
    ensures 0 < |step.Source()| <= |rest| && rest[..|step.Source()|] == step.Source()
    ensures Reached(content, kind, before + [step], rest[|step.Source()|..])
    ensures |SourceBytes(before + [step])| == |SourceBytes(before)| + |Encode(step.Source())|
  {
    hide Next, TextOf, SourceOf, Encode;
    ScanTakes(rest, kind, step);
    PrependPrepend(before, [step], Scan(rest[|step.Source()|..], kind));
    BytesConcat(before, [step]);
    OneStep(step);
  }

  lemma ReachedPlain(content: seq<Scalar>, kind: Kind, before: seq<Step>, rest: seq<Scalar>, n: nat)
    requires Reached(content, kind, before, rest) && n <= PlainRun(rest, kind)
    ensures Reached(content, kind, before + PlainSteps(rest[..n]), rest[n..])
    ensures TextBytes(PlainSteps(rest[..n])) == SourceBytes(PlainSteps(rest[..n])) == Encode(rest[..n])
    ensures |SourceBytes(before + PlainSteps(rest[..n]))| == |SourceBytes(before)| + |Encode(rest[..n])|
  {
    hide Next, TextOf, SourceOf, Encode;
    var plain := PlainSteps(rest[..n]);
    ScanPlain(rest, kind, n);
    PrependPrepend(before, plain, Scan(rest[n..], kind));
    BytesConcat(before, plain);
    PlainStepsKeepText(rest[..n]);
  }

  /** An escape that fails settles the whole literal. */
  lemma EscapeFails(content: seq<Scalar>, kind: Kind, before: seq<Step>, settled: nat, rest: seq<Scalar>,
                    start: nat, limit: nat, r: Result<nat, CookFailure>, after: seq<Step>)
    requires Reached(content, kind, before, rest) && rest != []
    requires settled <= |before| && AllPositional(before[settled..]) && (settled > 0 ==> before[settled - 1].Replacement?)
    requires |Segments(before[..settled], 0, start)| <= limit
    requires Next(rest, kind).Take? ==> Next(rest, kind).step.Replacement?
    requires Answers(Next(rest, kind), before, start, start + |SourceBytes(before)|, limit, r, after) && r.Err?
    ensures Decoded(content, start, kind, limit) == Err(r.error)
  {
    hide TextOf, SourceOf, Encode, Segments, Settled, Next, Outcome;
    if Next(rest, kind).Take? {
      var step := Next(rest, kind).step;
      ReachedAfter(content, kind, before, rest, step);
      LimitStays(before, step, Scan(rest[|step.Source()|..], kind).steps, Scan(content, kind).ending, start, limit);
    } else {
      SettledIs(before, settled);
      Stopped(content, kind, before, rest);
      StoppedOutcome(before, Scan(content, kind).ending, start, limit);
    }
  }

  lemma Stopped(content: seq<Scalar>, kind: Kind, before: seq<Step>, rest: seq<Scalar>)
    requires Reached(content, kind, before, rest) && rest != [] && !Next(rest, kind).Take?
    ensures Scan(content, kind).steps == before
    ensures Scan(content, kind).ending
         == if Next(rest, kind).Refuse? then Refused(Next(rest, kind).form, Next(rest, kind).length) else Disagreed
  {
    hide Next;
    assert before + [] == before;
  }

  lemma StoppedOutcome(before: seq<Step>, ending: Ending, start: nat, limit: nat)
    requires !ending.Complete? && |Segments(Settled(before), 0, start)| <= limit
    ensures Outcome(before, ending, start, limit)
         == if ending.Disagreed? then Err(Disagreement)
            else Err(UnsupportedForm(ending.form, ByteRange(start + |SourceBytes(before)|,
                                                            start + |SourceBytes(before)| + ending.length)))
  {
  }

  /** The whole loop computes what reading the content scalar by scalar comes to. */
  method Decode(source: seq<Byte>, start: nat, end: nat, kind: Kind, limit: nat, ghost content: seq<Scalar>)
    returns (r: Result<Cooked, CookFailure>)
    requires Spells(source, start, end, content)
    ensures r == Decoded(content, start, kind, limit)
  {
    ReachedNothing(content, kind);
    hide TextOf, SourceOf, Encode, Segments, RunLength, EncodeScalar, Settled, MapOf, Scan, Next, PlainRun, Position;
    var output := new Output(limit, start);
    var at := start;
    ghost var rest := content;
    while at < end
      invariant output.Valid() && output.start == start && output.limit == limit && fresh(output)
      invariant at == start + |SourceBytes(output.steps)| && Spells(source, at, end, rest)
      invariant Reached(content, kind, output.steps, rest)
      decreases end - at
    {
      var stop := Position(source, at, end, kind);
      PositionIsBoundary(source, at, end, rest, kind);
      ghost var n := PlainRun(rest, kind);
      if stop > at {
        Advance(source, at, end, rest, n);
        ReachedPlain(content, kind, output.steps, rest, n);
        output.Verbatim(source[at..stop], at, PlainSteps(rest[..n]));
        at := stop;
        rest := rest[n..];
        continue;
      }
      SpecialReads(source, at, end, rest, kind);
      ghost var before, settled := output.steps, output.settled;
      var next: Result<nat, CookFailure>;
      if source[at] == BACKSLASH {
        next := EscapeAt(source, at, end, kind, output, rest);
      } else if at + 1 < end && source[at + 1] == LF {
        next := Replace(output, Encode([LF]), at, at + 2, rest, kind);
      } else {
        // One byte stands for one byte here, though not for itself: the open run is extended.
        LoneReturn();
        output.Verbatim(Encode([LF]), at, [Positional(CR, LF)]);
        next := Ok(at + 1);
      }
      if next.Err? {
        EscapeFails(content, kind, before, settled, rest, start, limit, next, output.steps);
        return Err(next.error);
      }
      ghost var step := Next(rest, kind).step;
      ReachedAfter(content, kind, before, rest, step);
      Advance(source, at, end, rest, |step.Source()|);
      at := next.value;
      rest := rest[|step.Source()|..];
    }
    ReachedEnd(content, kind, output.steps, rest);
    r := output.Finish(start);
  }
}
