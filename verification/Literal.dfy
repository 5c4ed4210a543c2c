/** What one host literal decodes to, read scalar by scalar.

    The definitions follow the branches of `crates/intlify_authoring_js/src/cooked.rs`;
    `LiteralMap` proves what they promise about the input map, `EcmaLiteral` proves them
    against ECMA-262, and `Cooker` is the byte-level decoder that computes them. */
module Literal {
  import opened Utf8
  import opened Wrappers

  const TAB: Scalar := 0x09
  const LF: Scalar := 0x0A
  const VT: Scalar := 0x0B
  const FF: Scalar := 0x0C
  const CR: Scalar := 0x0D
  const BS: Scalar := 0x08
  const DIGIT_ZERO: Scalar := 0x30
  const BACKSLASH: Scalar := 0x5C
  const LOWER_B: Scalar := 0x62
  const LOWER_F: Scalar := 0x66
  const LOWER_N: Scalar := 0x6E
  const LOWER_R: Scalar := 0x72
  const LOWER_T: Scalar := 0x74
  const LOWER_U: Scalar := 0x75
  const LOWER_V: Scalar := 0x76
  const LOWER_X: Scalar := 0x78
  const OPEN_BRACE: Scalar := 0x7B
  const CLOSE_BRACE: Scalar := 0x7D
  const LS: Scalar := 0x2028
  const PS: Scalar := 0x2029

  const MAX_SCALAR := 0x10_FFFF

  datatype Kind = StringLiteral | TemplateLiteral

  datatype Unsupported = SurrogateEscape | TemplateEscapeInvalid | LegacyEscape

  /** One unit of decoding: the source it read and the text it stands for.

      A positional step keeps one byte answering for one byte, so neighbours share a run;
      a replacement is a run of its own. */
  datatype Step =
    | Positional(written: Scalar, read: Scalar)
    | Replacement(spelling: seq<Scalar>, piece: seq<Scalar>)
  {
    function Source(): seq<Scalar> {
      if Positional? then [written] else spelling
    }

    function Value(): seq<Scalar> {
      if Positional? then [read] else piece
    }
  }

  /** What the decoder does at one place of the content. */
  datatype Reading =
    | Take(step: Step)
    | Refuse(form: Unsupported, length: nat)  // the escape is the next `length` scalars
    | Disagree

  datatype Ending =
    | Complete
    | Refused(form: Unsupported, length: nat)
    | Disagreed

  datatype Scanned = Scanned(steps: seq<Step>, ending: Ending)

  // ---- digits

  predicate IsDigit(c: Scalar) {
    0x30 <= c <= 0x39
  }

  predicate IsOctal(c: Scalar) {
    0x30 <= c <= 0x37
  }

  predicate IsHex(c: Scalar) {
    0x30 <= c <= 0x39 || 0x41 <= c <= 0x46 || 0x61 <= c <= 0x66
  }

  function HexValue(c: Scalar): (v: nat)
    requires IsHex(c)
    ensures v < 16
  {
    if c <= 0x39 then c - 0x30 else if c <= 0x46 then c - 0x41 + 10 else c - 0x61 + 10
  }

  predicate AllHex(ds: seq<Scalar>) {
    forall i :: 0 <= i < |ds| ==> IsHex(ds[i])
  }

  /** The mathematical value of a run of hexadecimal digits, most significant first. */
  function MV(ds: seq<Scalar>): nat
    requires AllHex(ds)
  {
    if ds == [] then 0 else MV(ds[..|ds| - 1]) * 16 + HexValue(ds[|ds| - 1])
  }

  /** How many hexadecimal digits `s` opens with. */
  function HexRun(s: seq<Scalar>): (n: nat)
    ensures n <= |s| && AllHex(s[..n])
    ensures n < |s| ==> !IsHex(s[n])
  {
    if s == [] || !IsHex(s[0]) then 0 else 1 + HexRun(s[1..])
  }

  lemma {:induction false} HexRunIs(s: seq<Scalar>, n: nat)
    requires n <= |s| && AllHex(s[..n]) && (n < |s| ==> !IsHex(s[n]))
    ensures HexRun(s) == n
  {
    if n > 0 {
      assert IsHex(s[..n][0]);
      assert s[1..][..n - 1] == s[..n][1..];
      HexRunIs(s[1..], n - 1);
    }
  }

  predicate FourHex(s: seq<Scalar>)
    ensures FourHex(s) ==> |s| >= 4 && AllHex(s[..4])
  {
    |s| >= 4 && IsHex(s[0]) && IsHex(s[1]) && IsHex(s[2]) && IsHex(s[3])
  }

  predicate IsHighSurrogate(unit: nat) {
    0xD800 <= unit <= 0xDBFF
  }

  predicate IsLowSurrogate(unit: nat) {
    0xDC00 <= unit <= 0xDFFF
  }

  lemma MVFour(ds: seq<Scalar>)
    requires |ds| == 4 && AllHex(ds)
    ensures MV(ds) == ((HexValue(ds[0]) * 16 + HexValue(ds[1])) * 16 + HexValue(ds[2])) * 16 + HexValue(ds[3])
    ensures MV(ds) <= 0xFFFF
  {
    assert MV(ds[..1]) == HexValue(ds[0]);
    assert MV(ds[..2]) == MV(ds[..1]) * 16 + HexValue(ds[1]) by { assert ds[..2][..1] == ds[..1]; }
    assert MV(ds[..3]) == MV(ds[..2]) * 16 + HexValue(ds[2]) by { assert ds[..3][..2] == ds[..2]; }
  }

  // ---- one step

  function Paired(high: nat, low: nat): Scalar
    requires IsHighSurrogate(high) && IsLowSurrogate(low)
  {
    0x1_0000 + (high - 0xD800) * 0x400 + (low - 0xDC00)
  }

  function Invalid(kind: Kind, length: nat): Reading {
    match kind
    case StringLiteral => Disagree
    case TemplateLiteral => Refuse(TemplateEscapeInvalid, length)
  }

  /** How many digits a legacy octal escape takes, the first one included. */
  function LegacyLength(s: seq<Scalar>): (n: nat)
    requires s != [] && IsDigit(s[0])
    ensures 1 <= n <= 3 && n <= |s|
    ensures forall i :: 0 <= i < n ==> IsDigit(s[i])
  {
    if s[0] > 0x37 || |s| == 1 || !IsOctal(s[1]) then 1
    else if s[0] > 0x33 || |s| == 2 || !IsOctal(s[2]) then 2
    else 3
  }

  function ReplaceWith(s: seq<Scalar>, n: nat, piece: seq<Scalar>): Reading
    requires n <= |s|
  {
    Take(Replacement(s[..n], piece))
  }

  function Unicode(s: seq<Scalar>, kind: Kind): Reading
    requires |s| >= 2 && s[0] == BACKSLASH && s[1] == LOWER_U
  {
    if |s| > 2 && s[2] == OPEN_BRACE then
      var n := HexRun(s[3..]);
      if n == 0 then Invalid(kind, 3)
      else
        assert AllHex(s[3..3 + n]) by { assert s[3..][..n] == s[3..3 + n]; }
        var value := MV(s[3..3 + n]);
        if value > MAX_SCALAR || 3 + n >= |s| || s[3 + n] != CLOSE_BRACE then Invalid(kind, 3 + n)
        else if 0xD800 <= value <= 0xDFFF then Refuse(SurrogateEscape, 4 + n)
        else ReplaceWith(s, 4 + n, [value])
    else if !FourHex(s[2..]) then
      var n := HexRun(s[2..]);
      Invalid(kind, 2 + if n < 4 then n else 4)
    else
      assert s[2..][..4] == s[2..6];
      MVFour(s[2..6]);
      var unit := MV(s[2..6]);
      if IsHighSurrogate(unit) then
        if |s| > 7 && s[6] == BACKSLASH && s[7] == LOWER_U && FourHex(s[8..])
           && (assert s[8..][..4] == s[8..12]; IsLowSurrogate(MV(s[8..12]))) then
          ReplaceWith(s, 12, [Paired(unit, MV(s[8..12]))])
        else Refuse(SurrogateEscape, 6)
      else if IsLowSurrogate(unit) then Refuse(SurrogateEscape, 6)
      else ReplaceWith(s, 6, [unit])
  }

  function Escape(s: seq<Scalar>, kind: Kind): Reading
    requires s != [] && s[0] == BACKSLASH
  {
    if |s| == 1 then Disagree
    else
      var c := s[1];
      if c == LF then ReplaceWith(s, 2, [])
      else if c == CR then ReplaceWith(s, if |s| > 2 && s[2] == LF then 3 else 2, [])
      else if c == LOWER_B then ReplaceWith(s, 2, [BS])
      else if c == LOWER_F then ReplaceWith(s, 2, [FF])
      else if c == LOWER_N then ReplaceWith(s, 2, [LF])
      else if c == LOWER_R then ReplaceWith(s, 2, [CR])
      else if c == LOWER_T then ReplaceWith(s, 2, [TAB])
      else if c == LOWER_V then ReplaceWith(s, 2, [VT])
      else if c == DIGIT_ZERO && !(|s| > 2 && IsDigit(s[2])) then ReplaceWith(s, 2, [0])
      else if IsDigit(c) then
        match kind
        case StringLiteral => Refuse(LegacyEscape, 1 + LegacyLength(s[1..]))
        case TemplateLiteral => Refuse(TemplateEscapeInvalid, if c == DIGIT_ZERO then 3 else 2)
      else if c == LOWER_X then
        if |s| > 2 && IsHex(s[2]) then
          if |s| > 3 && IsHex(s[3]) then ReplaceWith(s, 4, [HexValue(s[2]) * 16 + HexValue(s[3])])
          else Invalid(kind, 3)
        else Invalid(kind, 2)
      else if c == LOWER_U then Unicode(s, kind)
      else if c == LS || c == PS then ReplaceWith(s, 2, [])
      else ReplaceWith(s, 2, [c])
  }

  /** What happens at the start of `s`, which is all of the content that is left. */
  function Next(s: seq<Scalar>, kind: Kind): Reading
    requires s != []
  {
    if s[0] == BACKSLASH then Escape(s, kind)
    else if kind.TemplateLiteral? && s[0] == CR then
      if |s| > 1 && s[1] == LF then ReplaceWith(s, 2, [LF]) else Take(Positional(CR, LF))
    else Take(Positional(s[0], s[0]))
  }

  /** Every step consumes what it read, and only a replacement changes how long text is. */
  lemma NextConsumes(s: seq<Scalar>, kind: Kind)
    requires s != []
    ensures Next(s, kind).Take? ==>
              var step := Next(s, kind).step;
              0 < |step.Source()| <= |s| && step.Source() == s[..|step.Source()|]
    ensures Next(s, kind).Refuse? ==> s[0] == BACKSLASH && 0 < Next(s, kind).length <= |s|
  {
    hide MV, HexRun, AllHex;
    if s[0] == BACKSLASH && |s| > 1 && s[1] == LOWER_U {
    }
  }

  // ---- `\u` escapes read without unfolding the rest

  predicate Ascii(s: seq<Scalar>, n: nat) {
    n <= |s| && forall i :: 0 <= i < n ==> s[i] < 0x80
  }

  lemma BracedReads(rest: seq<Scalar>, kind: Kind)
    requires |rest| >= 3 && rest[0] == BACKSLASH && rest[1] == LOWER_U && rest[2] == OPEN_BRACE
    ensures var n := HexRun(rest[3..]);
            var value := MV(rest[3..][..n]);
            && Ascii(rest, 3 + n)
            && Next(rest, kind)
               == if n == 0 then Invalid(kind, 3)
                  else if value > MAX_SCALAR || 3 + n >= |rest| || rest[3 + n] != CLOSE_BRACE then
                    Invalid(kind, 3 + n)
                  else if 0xD800 <= value <= 0xDFFF then Refuse(SurrogateEscape, 4 + n)
                  else ReplaceWith(rest, 4 + n, [value])
  {
    var n := HexRun(rest[3..]);
    assert rest[3..][..n] == rest[3..3 + n];
    forall i | 3 <= i < 3 + n
      ensures rest[i] < 0x80
    {
      assert IsHex(rest[3..][..n][i - 3]);
    }
  }

  lemma FourRead(rest: seq<Scalar>, kind: Kind)
    requires |rest| >= 2 && rest[0] == BACKSLASH && rest[1] == LOWER_U && (|rest| > 2 ==> rest[2] != OPEN_BRACE)
    ensures !FourHex(rest[2..]) ==>
              Next(rest, kind) == Invalid(kind, 2 + if HexRun(rest[2..]) < 4 then HexRun(rest[2..]) else 4)
    ensures FourHex(rest[2..]) ==>
              && AllHex(rest[2..6]) && rest[2..][..4] == rest[2..6] && Ascii(rest, 6)
              && (var unit := MV(rest[2..6]);
                  && (!IsHighSurrogate(unit) && !IsLowSurrogate(unit) ==>
                        unit <= 0xFFFF && Next(rest, kind) == ReplaceWith(rest, 6, [unit]))
                  && (IsLowSurrogate(unit) ==> Next(rest, kind) == Refuse(SurrogateEscape, 6))
                  && (IsHighSurrogate(unit) ==>
                        if |rest| > 7 && rest[6] == BACKSLASH && rest[7] == LOWER_U && FourHex(rest[8..]) then
                          && rest[8..][..4] == rest[8..12] && AllHex(rest[8..12]) && Ascii(rest, 12)
                          && Next(rest, kind)
                             == if IsLowSurrogate(MV(rest[8..12])) then ReplaceWith(rest, 12, [Paired(unit, MV(rest[8..12]))])
                                else Refuse(SurrogateEscape, 6)
                        else Next(rest, kind) == Refuse(SurrogateEscape, 6)))
  {
    if FourHex(rest[2..]) {
      assert rest[2..][..4] == rest[2..6];
      MVFour(rest[2..6]);
      if |rest| > 7 && FourHex(rest[8..]) {
        assert rest[8..][..4] == rest[8..12];
      }
    }
  }

  // ---- the whole content

  function Scan(s: seq<Scalar>, kind: Kind): Scanned
    decreases |s|
  {
    if s == [] then Scanned([], Complete)
    else
      NextConsumes(s, kind);
      match Next(s, kind)
      case Take(step) => Prepend([step], Scan(s[|step.Source()|..], kind))
      case Refuse(form, length) => Scanned([], Refused(form, length))
      case Disagree => Scanned([], Disagreed)
  }

  lemma ScanTakes(s: seq<Scalar>, kind: Kind, step: Step)
    requires s != [] && Next(s, kind) == Take(step)
    ensures 0 < |step.Source()| <= |s| && step.Source() == s[..|step.Source()|]
    ensures Scan(s, kind) == Prepend([step], Scan(s[|step.Source()|..], kind))
  {
    NextConsumes(s, kind);
  }

  function Prepend(steps: seq<Step>, rest: Scanned): Scanned {
    rest.(steps := steps + rest.steps)
  }

  lemma PrependPrepend(a: seq<Step>, b: seq<Step>, rest: Scanned)
    ensures Prepend(a, Prepend(b, rest)) == Prepend(a + b, rest)
  {
    assert a + (b + rest.steps) == (a + b) + rest.steps;
  }

  function TextOf(steps: seq<Step>): seq<Scalar> {
    if steps == [] then [] else steps[0].Value() + TextOf(steps[1..])
  }

  function SourceOf(steps: seq<Step>): seq<Scalar> {
    if steps == [] then [] else steps[0].Source() + SourceOf(steps[1..])
  }

  lemma {:induction false} TextOfConcat(a: seq<Step>, b: seq<Step>)
    ensures TextOf(a + b) == TextOf(a) + TextOf(b)
  {
    if a == [] {
      assert a + b == b;
    } else {
      var v := a[0].Value();
      assert (a + b)[0] == a[0] && (a + b)[1..] == a[1..] + b;
      TextOfConcat(a[1..], b);
      assert v + (TextOf(a[1..]) + TextOf(b)) == (v + TextOf(a[1..])) + TextOf(b);
    }
  }

  lemma {:induction false} SourceOfConcat(a: seq<Step>, b: seq<Step>)
    ensures SourceOf(a + b) == SourceOf(a) + SourceOf(b)
  {
    if a == [] {
      assert a + b == b;
    } else {
      var v := a[0].Source();
      assert (a + b)[0] == a[0] && (a + b)[1..] == a[1..] + b;
      SourceOfConcat(a[1..], b);
      assert v + (SourceOf(a[1..]) + SourceOf(b)) == (v + SourceOf(a[1..])) + SourceOf(b);
    }
  }

  lemma OneStep(step: Step)
    ensures TextOf([step]) == step.Value() && SourceOf([step]) == step.Source()
  {
  }

  function TextBytes(steps: seq<Step>): seq<Byte> {
    Encode(TextOf(steps))
  }

  function SourceBytes(steps: seq<Step>): seq<Byte> {
    Encode(SourceOf(steps))
  }

  lemma BytesConcat(a: seq<Step>, b: seq<Step>)
    ensures TextBytes(a + b) == TextBytes(a) + TextBytes(b)
    ensures SourceBytes(a + b) == SourceBytes(a) + SourceBytes(b)
  {
    TextOfConcat(a, b);
    SourceOfConcat(a, b);
    EncodeConcat(TextOf(a), TextOf(b));
    EncodeConcat(SourceOf(a), SourceOf(b));
  }

  // ---- the input map

  /** One half-open byte range. */
  datatype ByteRange = ByteRange(start: nat, end: nat)
  {
    function Length(): int {
      end - start
    }
  }

  datatype InputSegment = InputSegment(decoded: ByteRange, source: ByteRange)

  /** How many positional steps come first. */
  function RunLength(steps: seq<Step>): (n: nat)
    ensures n <= |steps|
    ensures forall i :: 0 <= i < n ==> steps[i].Positional?
    ensures n < |steps| ==> steps[n].Replacement?
  {
    if steps == [] || steps[0].Replacement? then 0 else 1 + RunLength(steps[1..])
  }

  /** The segment the steps make together, when decoded text is at `d` and source at `o`. */
  function Covering(steps: seq<Step>, d: nat, o: nat): InputSegment {
    InputSegment(ByteRange(d, d + |TextBytes(steps)|), ByteRange(o, o + |SourceBytes(steps)|))
  }

  /** How many steps the first segment covers. */
  function Head(steps: seq<Step>): (n: nat)
    requires steps != []
    ensures 1 <= n <= |steps|
  {
    if steps[0].Replacement? then 1 else RunLength(steps)
  }

  /** One segment per replacement and one per maximal run of positional steps. */
  function Segments(steps: seq<Step>, d: nat, o: nat): seq<InputSegment>
    decreases |steps|
  {
    if steps == [] then []
    else
      var n := Head(steps);
      [Covering(steps[..n], d, o)]
      + Segments(steps[n..], d + |TextBytes(steps[..n])|, o + |SourceBytes(steps[..n])|)
  }

  /** An empty literal still says where its text came from. */
  function MapOf(steps: seq<Step>, start: nat): seq<InputSegment> {
    if steps == [] then [InputSegment(ByteRange(0, 0), ByteRange(start, start))]
    else Segments(steps, 0, start)
  }

  // ---- the result under a segment limit

  datatype Cooked = Cooked(text: seq<Byte>, inputMap: seq<InputSegment>)

  datatype CookFailure =
    | UnsupportedForm(form: Unsupported, range: ByteRange)
    | SegmentLimit
    | Disagreement

  /** The steps up to the last replacement.  A run still open has claimed no segment. */
  function Settled(steps: seq<Step>): seq<Step> {
    if steps == [] || steps[|steps| - 1].Replacement? then steps else Settled(steps[..|steps| - 1])
  }

  /** What decoding comes to once the content has been read into `steps`. */
  function Outcome(steps: seq<Step>, ending: Ending, start: nat, limit: nat): Result<Cooked, CookFailure> {
    match ending
    case Complete =>
      if |MapOf(steps, start)| <= limit then Ok(Cooked(TextBytes(steps), MapOf(steps, start)))
      else Err(SegmentLimit)
    case Refused(form, length) =>
      if |Segments(Settled(steps), 0, start)| > limit then Err(SegmentLimit)
      else
        var at := start + |SourceBytes(steps)|;
        Err(UnsupportedForm(form, ByteRange(at, at + length)))
    case Disagreed =>
      if |Segments(Settled(steps), 0, start)| > limit then Err(SegmentLimit) else Err(Disagreement)
  }

  /** What decoding `content`, which begins at byte `start`, comes to. */
  function Decoded(content: seq<Scalar>, start: nat, kind: Kind, limit: nat): Result<Cooked, CookFailure> {
    var scanned := Scan(content, kind);
    Outcome(scanned.steps, scanned.ending, start, limit)
  }
}
