/** String and template literal contents as ECMA-262 derives and evaluates them.

    An `Element` is one production of sections 12.9.4 and 12.9.6; the value of a
    literal is a sequence of UTF-16 code units, surrogates included.  The module proves that the
    decoder accepts exactly the contents with a derivation whose surrogates pair as
    adjacent four-digit escapes, and that its text is then the literal's value. */
module EcmaLiteral {
  import opened Utf8
  import opened Literal
  import InputMap

  type CodeUnit = n: nat | n < 0x1_0000

  /** UTF16EncodeCodePoint, section 11.1.1. */
  function Utf16EncodeCodePoint(cp: nat): seq<CodeUnit>
    requires cp <= MAX_SCALAR
  {
    if cp <= 0xFFFF then [cp] else [(cp - 0x1_0000) / 0x400 + 0xD800, (cp - 0x1_0000) % 0x400 + 0xDC00]
  }

  function Utf16(cs: seq<Scalar>): seq<CodeUnit> {
    if cs == [] then [] else Utf16EncodeCodePoint(cs[0]) + Utf16(cs[1..])
  }

  lemma {:induction false} Utf16Concat(a: seq<Scalar>, b: seq<Scalar>)
    ensures Utf16(a + b) == Utf16(a) + Utf16(b)
  {
    if a == [] {
      assert a + b == b;
    } else {
      var first := Utf16EncodeCodePoint(a[0]);
      assert (a + b)[0] == a[0] && (a + b)[1..] == a[1..] + b;
      Utf16Concat(a[1..], b);
      assert first + (Utf16(a[1..]) + Utf16(b)) == (first + Utf16(a[1..])) + Utf16(b);
    }
  }

  lemma Utf16One(c: Scalar)
    ensures Utf16([c]) == Utf16EncodeCodePoint(c)
  {
  }

  /** UTF16SurrogatePairToCodePoint, section 11.1.3, undoes the encoding of the pair. */
  lemma PairedEncodes(high: nat, low: nat)
    requires IsHighSurrogate(high) && IsLowSurrogate(low)
    ensures Utf16EncodeCodePoint(Paired(high, low)) == [high, low]
  {
  }

  /** A sequence of code units is the value of at most one scalar text. */
  lemma {:induction false} Utf16Injective(a: seq<Scalar>, b: seq<Scalar>)
    requires Utf16(a) == Utf16(b)
    ensures a == b
  {
    if a == [] || b == [] {
    } else {
      var x, y := Utf16EncodeCodePoint(a[0]), Utf16EncodeCodePoint(b[0]);
      assert Utf16(a)[0] == x[0] && Utf16(b)[0] == y[0];
      assert |x| == |y|;
      assert x == Utf16(a)[..|x|] == Utf16(b)[..|y|] == y;
      assert a[0] == b[0] by { assert |x| == 2 ==> x[1] == y[1]; }
      assert Utf16(a[1..]) == Utf16(a)[|x|..] == Utf16(b[1..]);
      Utf16Injective(a[1..], b[1..]);
      assert a == [a[0]] + a[1..] && b == [b[0]] + b[1..];
    }
  }

  // ---- the grammar

  datatype Element =
    | SourceCharacter(c: Scalar)
    | CarriageReturn(crlf: bool)                 // a LineTerminatorSequence a template reads as one LF
    | LineContinuation(terminator: seq<Scalar>)
    | SingleEscape(c: Scalar)
    | NonEscape(c: Scalar)
    | NullEscape
    | HexEscape(high: Scalar, low: Scalar)
    | FourDigits(digits: seq<Scalar>)
    | Braced(digits: seq<Scalar>)

  const SINGLE_QUOTE: Scalar := 0x27
  const DOUBLE_QUOTE: Scalar := 0x22

  predicate IsSingleEscapeCharacter(c: Scalar) {
    c == SINGLE_QUOTE || c == DOUBLE_QUOTE || c == BACKSLASH || c == LOWER_B || c == LOWER_F || c == LOWER_N
    || c == LOWER_R || c == LOWER_T || c == LOWER_V
  }

  predicate IsLineTerminator(c: Scalar) {
    c == LF || c == CR || c == LS || c == PS
  }

  predicate IsLineTerminatorSequence(s: seq<Scalar>) {
    s == [LF] || s == [CR] || s == [CR, LF] || s == [LS] || s == [PS]
  }

  predicate StartsWith(s: seq<Scalar>, c: Scalar) {
    s != [] && s[0] == c
  }

  /** `e` is a production of the grammar where `following` is what comes after it. */
  predicate Derives(e: Element, following: seq<Scalar>, kind: Kind) {
    match e
    case SourceCharacter(c) => c != BACKSLASH && (kind.TemplateLiteral? ==> c != CR)
    case CarriageReturn(crlf) => kind.TemplateLiteral? && (crlf || !StartsWith(following, LF))
    case LineContinuation(t) => IsLineTerminatorSequence(t) && (t == [CR] ==> !StartsWith(following, LF))
    case SingleEscape(c) => IsSingleEscapeCharacter(c)
    case NonEscape(c) =>
      !IsSingleEscapeCharacter(c) && !IsDigit(c) && c != LOWER_X && c != LOWER_U && !IsLineTerminator(c)
    case NullEscape => following != [] ==> !IsDigit(following[0])
    case HexEscape(high, low) => IsHex(high) && IsHex(low)
    case FourDigits(digits) => |digits| == 4 && AllHex(digits)
    case Braced(digits) => digits != [] && AllHex(digits) && MV(digits) <= MAX_SCALAR
  }

  /** The source text of a production. */
  function Spelling(e: Element): (s: seq<Scalar>)
    ensures s != []
  {
    match e
    case SourceCharacter(c) => [c]
    case CarriageReturn(crlf) => if crlf then [CR, LF] else [CR]
    case LineContinuation(t) => [BACKSLASH] + t
    case SingleEscape(c) => [BACKSLASH, c]
    case NonEscape(c) => [BACKSLASH, c]
    case NullEscape => [BACKSLASH, DIGIT_ZERO]
    case HexEscape(high, low) => [BACKSLASH, LOWER_X, high, low]
    case FourDigits(digits) => [BACKSLASH, LOWER_U] + digits
    case Braced(digits) => [BACKSLASH, LOWER_U, OPEN_BRACE] + digits + [CLOSE_BRACE]
  }

  function SingleEscapeValue(c: Scalar): CodeUnit
    requires IsSingleEscapeCharacter(c)
  {
    if c == LOWER_B then 0x08 else if c == LOWER_T then 0x09 else if c == LOWER_N then 0x0A
    else if c == LOWER_V then 0x0B else if c == LOWER_F then 0x0C else if c == LOWER_R then 0x0D
    else c
  }

  /** SV in a string and TV in a template. */
  function SV(e: Element, following: seq<Scalar>, kind: Kind): seq<CodeUnit>
    requires Derives(e, following, kind)
  {
    match e
    case SourceCharacter(c) => Utf16EncodeCodePoint(c)
    case CarriageReturn(_) => [LF]
    case LineContinuation(_) => []
    case SingleEscape(c) => [SingleEscapeValue(c)]
    case NonEscape(c) => Utf16EncodeCodePoint(c)
    case NullEscape => [0]
    case HexEscape(high, low) => [HexValue(high) * 16 + HexValue(low)]
    case FourDigits(digits) => MVFour(digits); [MV(digits)]
    case Braced(digits) => Utf16EncodeCodePoint(MV(digits))
  }

  function Spelled(es: seq<Element>): seq<Scalar> {
    if es == [] then [] else Spelling(es[0]) + Spelled(es[1..])
  }

  /** `es` is a derivation of the content it spells. */
  predicate IsDerivation(es: seq<Element>, kind: Kind) {
    es == [] || (Derives(es[0], Spelled(es[1..]), kind) && IsDerivation(es[1..], kind))
  }

  function ValueOf(es: seq<Element>, kind: Kind): seq<CodeUnit>
    requires IsDerivation(es, kind)
  {
    if es == [] then [] else SV(es[0], Spelled(es[1..]), kind) + ValueOf(es[1..], kind)
  }

  // ---- what the profile accepts of it

  predicate IsHigh(e: Element) {
    e.FourDigits? && AllHex(e.digits) && IsHighSurrogate(MV(e.digits))
  }

  predicate IsLow(e: Element) {
    e.FourDigits? && AllHex(e.digits) && IsLowSurrogate(MV(e.digits))
  }

  predicate IsBracedSurrogate(e: Element) {
    e.Braced? && AllHex(e.digits) && 0xD800 <= MV(e.digits) <= 0xDFFF
  }

  /** Every surrogate is one half of two adjacent four-digit escapes. */
  predicate WellPaired(es: seq<Element>) {
    && (forall i :: 0 <= i < |es| ==> !IsBracedSurrogate(es[i]))
    && (forall i :: 0 <= i < |es| && IsHigh(es[i]) ==> i + 1 < |es| && IsLow(es[i + 1]))
    && (forall i :: 0 <= i < |es| && IsLow(es[i]) ==> i > 0 && IsHigh(es[i - 1]))
  }

  // ---- one production, one step

  predicate IsSurrogate(e: Element) {
    IsHigh(e) || IsLow(e) || IsBracedSurrogate(e)
  }

  /** `step` reads exactly `s` and stands for the code units `value`. */
  predicate StepFor(step: Step, s: seq<Scalar>, value: seq<CodeUnit>) {
    step.Source() == s && Utf16(step.Value()) == value
  }

  lemma ElementReads(e: Element, following: seq<Scalar>, kind: Kind)
    requires Derives(e, following, kind) && !IsSurrogate(e)
    ensures Next(Spelling(e) + following, kind).Take?
    ensures StepFor(Next(Spelling(e) + following, kind).step, Spelling(e), SV(e, following, kind))
  {
    var s := Spelling(e) + following;
    if e.FourDigits? {
      FourReads(e, following, kind);
    } else if e.Braced? {
      BracedElementReads(e, following, kind);
    } else {
      hide Unicode, MV, HexRun;
      assert s[..|Spelling(e)|] == Spelling(e);
      assert Next(s, kind).Take?;
      var step := Next(s, kind).step;
      assert step.Source() == Spelling(e);
      if |step.Value()| == 1 {
        assert step.Value() == [step.Value()[0]];
        Utf16One(step.Value()[0]);
      }
    }
  }

  lemma FourReads(e: Element, following: seq<Scalar>, kind: Kind)
    requires e.FourDigits? && Derives(e, following, kind) && !IsSurrogate(e)
    ensures Next(Spelling(e) + following, kind).Take?
    ensures StepFor(Next(Spelling(e) + following, kind).step, Spelling(e), SV(e, following, kind))
  {
    hide Next, MV, HexRun;
    var s := Spelling(e) + following;
    assert s[..6] == Spelling(e) && s[2..6] == e.digits && s[2] == e.digits[0];
    assert IsHex(e.digits[0]);
    FourRead(s, kind);
    assert FourHex(s[2..]) by { assert forall i :: 0 <= i < 4 ==> s[2..][i] == e.digits[i]; }
    MVFour(e.digits);
    Utf16One(MV(e.digits));
  }

  lemma BracedElementReads(e: Element, following: seq<Scalar>, kind: Kind)
    requires e.Braced? && Derives(e, following, kind) && !IsSurrogate(e)
    ensures Next(Spelling(e) + following, kind).Take?
    ensures StepFor(Next(Spelling(e) + following, kind).step, Spelling(e), SV(e, following, kind))
  {
    hide Next, MV, HexRun;
    var s, n := Spelling(e) + following, |e.digits|;
    BracedParts(e.digits, following);
    HexRunIs(s[3..], n);
    BracedReads(s, kind);
    Utf16One(MV(e.digits));
  }

  lemma BracedParts(digits: seq<Scalar>, following: seq<Scalar>)
    ensures var s, n := Spelling(Braced(digits)) + following, |digits|;
            && s[3..][..n] == digits && s[3..][n] == s[3 + n] == CLOSE_BRACE && s[..4 + n] == Spelling(Braced(digits))
            && s[0] == BACKSLASH && s[1] == LOWER_U && s[2] == OPEN_BRACE
  {
  }

  lemma PairReads(high: Element, low: Element, following: seq<Scalar>, kind: Kind)
    requires IsHigh(high) && IsLow(low) && |high.digits| == 4 && |low.digits| == 4
    ensures var s := Spelling(high) + (Spelling(low) + following);
            && Next(s, kind).Take?
            && StepFor(Next(s, kind).step, Spelling(high) + Spelling(low), [MV(high.digits), MV(low.digits)])
  {
    hide Next, MV, HexRun;
    var s := Spelling(high) + (Spelling(low) + following);
    assert s[2..6] == high.digits && s[2] == high.digits[0] && s[8..12] == low.digits;
    assert s[..12] == Spelling(high) + Spelling(low);
    assert IsHex(high.digits[0]);
    FourRead(s, kind);
    assert FourHex(s[2..]) by { assert forall i :: 0 <= i < 4 ==> s[2..][i] == high.digits[i]; }
    assert FourHex(s[8..]) by { assert forall i :: 0 <= i < 4 ==> s[8..][i] == low.digits[i]; }
    var c := Paired(MV(high.digits), MV(low.digits));
    Utf16One(c);
    PairedEncodes(MV(high.digits), MV(low.digits));
  }

  // ---- a derivation decodes to its value

  /** The decoder's text of `s`, as code units. */
  function TextUnits(s: seq<Scalar>, kind: Kind): seq<CodeUnit> {
    Utf16(TextOf(Scan(s, kind).steps))
  }

  lemma OneMore(s: seq<Scalar>, tail: seq<Scalar>, kind: Kind, step: Step)
    requires s != [] && Next(s, kind) == Take(step) && s == step.Source() + tail
    ensures Scan(s, kind).ending == Scan(tail, kind).ending
    ensures TextUnits(s, kind) == Utf16(step.Value()) + TextUnits(tail, kind)
  {
    hide Next, Scan, TextOf, Utf16;
    ScanTakes(s, kind, step);
    assert s[|step.Source()|..] == tail;
    TextOfConcat([step], Scan(tail, kind).steps);
    OneStep(step);
    Utf16Concat(step.Value(), TextOf(Scan(tail, kind).steps));
  }

  lemma WellPairedTail(es: seq<Element>, n: nat)
    requires WellPaired(es) && n <= |es|
    requires (n == 1 && !IsHigh(es[0])) || (n == 2 && IsHigh(es[0]))
    ensures WellPaired(es[n..])
  {
    var tail := es[n..];
    assert forall i :: 0 <= i < |tail| ==> tail[i] == es[n + i];
    forall i | 0 <= i < |tail| && IsLow(tail[i])
      ensures i > 0 && IsHigh(tail[i - 1])
    {
      assert IsLow(es[n + i]);
      assert IsHigh(es[n + i - 1]);
    }
    forall i | 0 <= i < |tail| && IsHigh(tail[i])
      ensures i + 1 < |tail| && IsLow(tail[i + 1])
    {
      assert IsHigh(es[n + i]);
      assert IsLow(es[n + i + 1]);
    }
  }

  lemma {:induction false} DerivationDecodes(es: seq<Element>, kind: Kind)
    requires IsDerivation(es, kind) && WellPaired(es)
    ensures Scan(Spelled(es), kind).ending.Complete?
    ensures TextUnits(Spelled(es), kind) == ValueOf(es, kind)
    decreases |es|
  {
    if es == [] {
    } else if IsHigh(es[0]) {
      PairDecodes(es, kind);
      WellPairedTail(es, 2);
      DerivationDecodes(es[2..], kind);
    } else {
      WellPairedTail(es, 1);
      DerivationDecodes(es[1..], kind);
      ElementDecodes(es, kind);
    }
  }

  lemma ElementDecodes(es: seq<Element>, kind: Kind)
    requires es != [] && Derives(es[0], Spelled(es[1..]), kind) && !IsSurrogate(es[0])
    ensures Scan(Spelled(es), kind).ending == Scan(Spelled(es[1..]), kind).ending
    ensures TextUnits(Spelled(es), kind)
         == SV(es[0], Spelled(es[1..]), kind) + TextUnits(Spelled(es[1..]), kind)
  {
    hide Next, Scan, Derives, IsHigh, IsLow, IsBracedSurrogate, TextUnits, SV, Spelling;
    var s, tail := Spelled(es), Spelled(es[1..]);
    ElementReads(es[0], tail, kind);
    OneMore(s, tail, kind, Next(s, kind).step);
  }

  lemma PairDecodes(es: seq<Element>, kind: Kind)
    requires IsDerivation(es, kind) && WellPaired(es) && es != [] && IsHigh(es[0])
    ensures |es| >= 2 && IsDerivation(es[2..], kind)
    ensures Scan(Spelled(es), kind).ending == Scan(Spelled(es[2..]), kind).ending
    ensures TextUnits(Spelled(es), kind) == [MV(es[0].digits), MV(es[1].digits)] + TextUnits(Spelled(es[2..]), kind)
    ensures ValueOf(es, kind) == [MV(es[0].digits), MV(es[1].digits)] + ValueOf(es[2..], kind)
  {
    hide Next, Scan, TextUnits, MV, Spelling, Spelled, IsDerivation, ValueOf;
    PairValue(es, kind);
    var s, tail := Spelled(es), Spelled(es[2..]);
    PairReads(es[0], es[1], tail, kind);
    Regroup(Spelling(es[0]), Spelling(es[1]), tail);
    OneMore(s, tail, kind, Next(s, kind).step);
  }

  lemma PairValue(es: seq<Element>, kind: Kind)
    requires IsDerivation(es, kind) && WellPaired(es) && es != [] && IsHigh(es[0])
    ensures |es| >= 2 && IsLow(es[1]) && |es[0].digits| == |es[1].digits| == 4 && IsDerivation(es[2..], kind)
    ensures Spelled(es) == Spelling(es[0]) + (Spelling(es[1]) + Spelled(es[2..]))
    ensures ValueOf(es, kind) == [MV(es[0].digits), MV(es[1].digits)] + ValueOf(es[2..], kind)
  {
    hide MV, Spelling;
    assert IsLow(es[1]);
    var after := es[1..];
    assert after[0] == es[1] && after[1..] == es[2..];
    assert ValueOf(after, kind) == [MV(es[1].digits)] + ValueOf(es[2..], kind);
  }

  lemma Regroup<T>(a: seq<T>, b: seq<T>, c: seq<T>)
    ensures a + (b + c) == (a + b) + c
  {
  }

  // ---- whatever decodes has a derivation

  /** The only production `s` can open with. */
  function ElementOf(s: seq<Scalar>, kind: Kind): Element
    requires s != []
  {
    if s[0] != BACKSLASH || |s| == 1 then
      if kind.TemplateLiteral? && s[0] == CR then CarriageReturn(|s| > 1 && s[1] == LF) else SourceCharacter(s[0])
    else if s[1] == CR then LineContinuation(if |s| > 2 && s[2] == LF then [CR, LF] else [CR])
    else if IsLineTerminator(s[1]) then LineContinuation([s[1]])
    else if IsSingleEscapeCharacter(s[1]) then SingleEscape(s[1])
    else if IsDigit(s[1]) then NullEscape
    else if s[1] == LOWER_X && |s| >= 4 then HexEscape(s[2], s[3])
    else if s[1] == LOWER_U && |s| >= 3 && s[2] == OPEN_BRACE then Braced(s[3..][..HexRun(s[3..])])
    else if s[1] == LOWER_U && |s| >= 6 then FourDigits(s[2..6])
    else NonEscape(s[1])
  }

  /** `e` opens `s` and derives there, and `n` scalars of `s` were read for it. */
  predicate Opens(e: Element, s: seq<Scalar>, kind: Kind, n: nat) {
    var w := |Spelling(e)|;
    && w <= |s| && s[..w] == Spelling(e) && Derives(e, s[w..], kind) && !IsLow(e) && !IsBracedSurrogate(e)
    && if IsHigh(e) then
         n == 12 <= |s| && var low := FourDigits(s[8..12]);
         IsLow(low) && s[6..12] == Spelling(low)
       else n == w
  }

  lemma ElementOpens(s: seq<Scalar>, kind: Kind)
    requires s != [] && Next(s, kind).Take?
    ensures Opens(ElementOf(s, kind), s, kind, |Next(s, kind).step.Source()|)
  {
    if s[0] == BACKSLASH && s[1] == LOWER_U {
      if s[2] == OPEN_BRACE {
        BracedOpens(s, kind);
      } else {
        FourOpens(s, kind);
      }
    } else {
      hide Unicode, MV, HexRun;
    }
  }

  lemma BracedOpens(s: seq<Scalar>, kind: Kind)
    requires |s| > 2 && s[0] == BACKSLASH && s[1] == LOWER_U && s[2] == OPEN_BRACE && Next(s, kind).Take?
    ensures Opens(ElementOf(s, kind), s, kind, |Next(s, kind).step.Source()|)
  {
    hide Next, MV, HexRun;
    BracedReads(s, kind);
    BracedSlices(s, HexRun(s[3..]));
  }

  lemma BracedSlices(s: seq<Scalar>, n: nat)
    requires 4 + n <= |s| && s[0] == BACKSLASH && s[1] == LOWER_U && s[2] == OPEN_BRACE && s[3 + n] == CLOSE_BRACE
    ensures s[3..][..n] == s[3..3 + n] && s[..4 + n] == Spelling(Braced(s[3..3 + n]))
  {
  }

  lemma FourOpens(s: seq<Scalar>, kind: Kind)
    requires |s| > 2 && s[0] == BACKSLASH && s[1] == LOWER_U && s[2] != OPEN_BRACE && Next(s, kind).Take?
    ensures Opens(ElementOf(s, kind), s, kind, |Next(s, kind).step.Source()|)
  {
    hide Next, MV, HexRun;
    FourRead(s, kind);
    assert FourHex(s[2..]);
    assert s[..6] == Spelling(FourDigits(s[2..6]));
    if IsHighSurrogate(MV(s[2..6])) {
      assert s[6..12] == Spelling(FourDigits(s[8..12]));
    }
  }

  lemma WellPairedCons(front: seq<Element>, es: seq<Element>)
    requires WellPaired(es)
    requires (|front| == 1 && !IsSurrogate(front[0])) || (|front| == 2 && IsHigh(front[0]) && IsLow(front[1]))
    ensures WellPaired(front + es)
  {
    var all, n := front + es, |front|;
    assert forall i :: n <= i < |all| ==> all[i] == es[i - n];
    forall i | 0 <= i < |all| && IsLow(all[i])
      ensures i > 0 && IsHigh(all[i - 1])
    {
      if i >= n {
        assert IsLow(es[i - n]);
        assert IsHigh(es[i - n - 1]);
      }
    }
    forall i | 0 <= i < |all| && IsHigh(all[i])
      ensures i + 1 < |all| && IsLow(all[i + 1])
    {
      if i >= n {
        assert IsHigh(es[i - n]);
        assert IsLow(es[i - n + 1]);
      }
    }
  }

  lemma {:induction false} DecodedDerives(s: seq<Scalar>, kind: Kind) returns (es: seq<Element>)
    requires Scan(s, kind).ending.Complete?
    ensures IsDerivation(es, kind) && WellPaired(es) && Spelled(es) == s
    decreases |s|
  {
    hide Next, ElementOf, Opens;
    if s == [] {
      es := [];
    } else {
      NextConsumes(s, kind);
      ElementOpens(s, kind);
      var e, n := ElementOf(s, kind), |Next(s, kind).step.Source()|;
      es := DecodedDerives(s[n..], kind);
      es := OpenedDerives(e, s, kind, n, es);
    }
  }

  lemma OpenedDerives(e: Element, s: seq<Scalar>, kind: Kind, n: nat, es: seq<Element>) returns (all: seq<Element>)
    requires n <= |s| && Opens(e, s, kind, n) && IsDerivation(es, kind) && WellPaired(es) && Spelled(es) == s[n..]
    ensures IsDerivation(all, kind) && WellPaired(all) && Spelled(all) == s
  {
    hide Derives, WellPaired, Spelled, IsDerivation, Spelling;
    var w := |Spelling(e)|;
    if IsHigh(e) {
      var low := FourDigits(s[8..12]);
      LowDerives(low, s[12..], kind);
      FourWidth(e, s[w..], kind);
      Slices(s);
      DerivationCons(low, es, s[6..], 6, kind);
      DerivationCons(e, [low] + es, s, 6, kind);
      WellPairedCons([e, low], es);
      all := [e] + ([low] + es);
      assert all == [e, low] + es;
    } else {
      DerivationCons(e, es, s, w, kind);
      WellPairedCons([e], es);
      all := [e] + es;
    }
  }

  lemma FourWidth(e: Element, following: seq<Scalar>, kind: Kind)
    requires e.FourDigits? && Derives(e, following, kind)
    ensures |Spelling(e)| == 6
  {
  }

  lemma Slices(s: seq<Scalar>)
    requires |s| >= 12
    ensures s[6..][..6] == s[6..12] && s[6..][6..] == s[12..]
  {
  }

  lemma DerivationCons(e: Element, es: seq<Element>, s: seq<Scalar>, w: nat, kind: Kind)
    requires w <= |s| && s[..w] == Spelling(e) && Spelled(es) == s[w..]
    requires IsDerivation(es, kind) && Derives(e, s[w..], kind)
    ensures IsDerivation([e] + es, kind) && Spelled([e] + es) == s
  {
    hide Derives, Spelling;
    assert ([e] + es)[1..] == es;
    assert s == s[..w] + s[w..];
  }

  lemma LowDerives(low: Element, following: seq<Scalar>, kind: Kind)
    requires low.FourDigits? && |low.digits| == 4 && AllHex(low.digits)
    ensures Derives(low, following, kind) && |Spelling(low)| == 6
  {
  }

  /** The decoder accepts exactly the contents that have a derivation whose surrogates pair. */
  lemma AcceptsExactly(s: seq<Scalar>, kind: Kind)
    ensures Scan(s, kind).ending.Complete?
       <==> exists es :: IsDerivation(es, kind) && WellPaired(es) && Spelled(es) == s
  {
    hide *;
    if Scan(s, kind).ending.Complete? {
      var es := DecodedDerives(s, kind);
    }
    if es :| IsDerivation(es, kind) && WellPaired(es) && Spelled(es) == s {
      DerivationDecodes(es, kind);
    }
  }

  // ---- the grammar is unambiguous

  lemma HeadIsElement(e: Element, t: seq<Scalar>, kind: Kind)
    requires Derives(e, t, kind)
    ensures ElementOf(Spelling(e) + t, kind) == e
  {
    hide MV, HexRun;
    if e.Braced? || e.FourDigits? {
      HeadIsUnicode(e, t, kind);
    } else {
      var s, w := Spelling(e) + t, |Spelling(e)|;
      assert s[..w] == Spelling(e) && s[w..] == t;
    }
  }

  lemma HeadIsUnicode(e: Element, t: seq<Scalar>, kind: Kind)
    requires Derives(e, t, kind) && (e.Braced? || e.FourDigits?)
    ensures ElementOf(Spelling(e) + t, kind) == e
  {
    hide MV, HexRun;
    var s := Spelling(e) + t;
    assert s[0] == BACKSLASH && s[1] == LOWER_U;
    if e.Braced? {
      BracedParts(e.digits, t);
      HexRunIs(s[3..], |e.digits|);
    } else {
      assert s[2..6] == e.digits && s[2] == e.digits[0];
    }
  }

  lemma SameHead(e: Element, t: seq<Scalar>, e': Element, t': seq<Scalar>, kind: Kind)
    requires Derives(e, t, kind) && Derives(e', t', kind) && Spelling(e) + t == Spelling(e') + t'
    ensures e == e' && t == t'
  {
    hide *;
    HeadIsElement(e, t, kind);
    HeadIsElement(e', t', kind);
    SameTail(Spelling(e), t, t');
  }

  lemma SameTail(a: seq<Scalar>, t: seq<Scalar>, t': seq<Scalar>)
    requires a + t == a + t'
    ensures t == t'
  {
    assert t == (a + t)[|a|..] && t' == (a + t')[|a|..];
  }

  lemma {:induction false} Unambiguous(es: seq<Element>, es': seq<Element>, kind: Kind)
    requires IsDerivation(es, kind) && IsDerivation(es', kind) && Spelled(es) == Spelled(es')
    ensures es == es'
  {
    hide Derives, Spelling;
    if es == [] || es' == [] {
    } else {
      SameHead(es[0], Spelled(es[1..]), es'[0], Spelled(es'[1..]), kind);
      Unambiguous(es[1..], es'[1..], kind);
      assert es == [es[0]] + es[1..] && es' == [es'[0]] + es'[1..];
    }
  }

  // ---- the decoder against the language

  /** The content decodes, and to `text`. */
  predicate DecodesTo(content: seq<Scalar>, start: nat, kind: Kind, text: seq<Scalar>) {
    var result := InputMap.Free(content, start, kind);
    result.Ok? && result.value.text == Encode(text)
  }

  lemma FreeOutcome(content: seq<Scalar>, start: nat, kind: Kind)
    ensures InputMap.Free(content, start, kind).Ok? <==> Scan(content, kind).ending.Complete?
    ensures Scan(content, kind).ending.Complete? ==> DecodesTo(content, start, kind, TextOf(Scan(content, kind).steps))
  {
    hide Scan, MapOf, Segments, Settled, Encode, TextOf;
    InputMap.SegmentLimitExact(content, start, kind, 0);
  }

  /** A literal whose value encodes `text` decodes to `text`. */
  lemma ValueDecodes(es: seq<Element>, text: seq<Scalar>, start: nat, kind: Kind)
    requires IsDerivation(es, kind) && WellPaired(es) && ValueOf(es, kind) == Utf16(text)
    ensures DecodesTo(Spelled(es), start, kind, text)
  {
    hide IsDerivation, WellPaired, ValueOf, Spelled, DecodesTo, Encode, Scan, TextOf, Utf16;
    DerivationDecodes(es, kind);
    FreeOutcome(Spelled(es), start, kind);
    Utf16Injective(TextOf(Scan(Spelled(es), kind).steps), text);
  }

  /** The whole result, in the language's own terms: a content with a derivation decodes exactly when
      its surrogates pair, and then to the one scalar text whose code units are the literal's value. */
  lemma DecodesToValue(es: seq<Element>, start: nat, kind: Kind)
    requires IsDerivation(es, kind)
    ensures InputMap.Free(Spelled(es), start, kind).Ok? <==> WellPaired(es)
    ensures forall text :: DecodesTo(Spelled(es), start, kind, text) <==> WellPaired(es) && Utf16(text) == ValueOf(es, kind)
  {
    hide IsDerivation, WellPaired, ValueOf, Spelled, Encode, Scan, TextOf, Utf16, InputMap.Free;
    var content := Spelled(es);
    FreeOutcome(content, start, kind);
    if Scan(content, kind).ending.Complete? {
      var es' := DecodedDerives(content, kind);
      Unambiguous(es, es', kind);
    }
    if WellPaired(es) {
      DerivationDecodes(es, kind);
    }
    forall text
      ensures DecodesTo(content, start, kind, text) <==> WellPaired(es) && Utf16(text) == ValueOf(es, kind)
    {
      if WellPaired(es) && Utf16(text) == ValueOf(es, kind) {
        ValueDecodes(es, text, start, kind);
      }
      if DecodesTo(content, start, kind, text) {
        EncodeInjective(text, TextOf(Scan(content, kind).steps));
      }
    }
  }
}
