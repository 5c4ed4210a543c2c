/** Why and where decoding stops, said of the grammar: each failure is classified exactly by what stands there. */
module Refusals {
  import opened Utf8
  import opened Wrappers
  import opened Literal
  import opened EcmaLiteral
  import InputMap

  // ---- what can stand at the head of the content that is left

  /** The production `e` is what `s` opens with. */
  predicate OpensWith(e: Element, s: seq<Scalar>, kind: Kind) {
    var w := |Spelling(e)|;
    w <= |s| && s[..w] == Spelling(e) && Derives(e, s[w..], kind)
  }

  ghost predicate NoProduction(s: seq<Scalar>, kind: Kind) {
    forall e :: !OpensWith(e, s, kind)
  }

  /** A high half followed at once by a four-digit low half. */
  ghost predicate Partnered(e: Element, s: seq<Scalar>, kind: Kind)
    requires OpensWith(e, s, kind)
  {
    IsHigh(e) && exists low :: IsLow(low) && OpensWith(low, s[|Spelling(e)|..], kind)
  }

  /** `s` opens with half a pair, or a braced surrogate, that no adjacent four-digit escape completes. */
  ghost predicate OpensUnpaired(e: Element, s: seq<Scalar>, kind: Kind) {
    OpensWith(e, s, kind) && IsSurrogate(e) && !Partnered(e, s, kind)
  }

  /** Annex B of ECMA-262: the first `n` characters of `s` are a LegacyOctalEscapeSequence or a
      NonOctalDecimalEscapeSequence, lookaheads included. */
  predicate LegacyDerives(s: seq<Scalar>, n: nat) {
    && 1 <= n <= |s|
    && (|| (n == 1 && s[0] == 0x30 && |s| > 1 && 0x38 <= s[1] <= 0x39)
        || (n == 1 && 0x31 <= s[0] <= 0x37 && !OctalAt(s, n))
        || (n == 2 && 0x30 <= s[0] <= 0x33 && OctalAt(s, 1) && !OctalAt(s, n))
        || (n == 2 && 0x34 <= s[0] <= 0x37 && OctalAt(s, 1))
        || (n == 3 && 0x30 <= s[0] <= 0x33 && OctalAt(s, 1) && OctalAt(s, 2))
        || (n == 1 && 0x38 <= s[0] <= 0x39))
  }

  predicate OctalAt(s: seq<Scalar>, i: nat) {
    i < |s| && 0x30 <= s[i] <= 0x37
  }

  predicate HexAt(s: seq<Scalar>, i: nat) {
    i < |s| && IsHex(s[i])
  }

  /** Section 12.9.6 of ECMA-262: the first `n` characters of `s` are a NotEscapeSequence, lookaheads included. */
  predicate NotEscape(s: seq<Scalar>, n: nat) {
    && 1 <= n <= |s|
    && (|| (n == 2 && s[0] == DIGIT_ZERO && IsDigit(s[1]))
        || (n == 1 && 0x31 <= s[0] <= 0x39)
        || (n == 1 && s[0] == LOWER_X && !HexAt(s, 1))
        || (n == 2 && s[0] == LOWER_X && IsHex(s[1]) && !HexAt(s, 2))
        || (n == 1 && s[0] == LOWER_U && !HexAt(s, 1) && !(|s| > 1 && s[1] == OPEN_BRACE))
        || (2 <= n <= 4 && s[0] == LOWER_U && AllHex(s[1..n]) && !HexAt(s, n))
        || (n == 2 && s[0] == LOWER_U && s[1] == OPEN_BRACE && !HexAt(s, 2))
        || (n > 2 && s[0] == LOWER_U && s[1] == OPEN_BRACE && NotCodePoint(s, n)))
  }

  /** Hexadecimal digits in a brace that name no code point, or that no brace closes. */
  predicate NotCodePoint(s: seq<Scalar>, n: nat)
    requires 2 < n <= |s|
  {
    AllHex(s[2..n]) && !HexAt(s, n) && (MV(s[2..n]) > MAX_SCALAR || n == |s| || s[n] != CLOSE_BRACE)
  }

  /** The form a refusal names is the form that is there, and takes `n` scalars. */
  ghost predicate FormFits(s: seq<Scalar>, kind: Kind, form: Unsupported, n: nat) {
    match form
    case LegacyEscape => kind.StringLiteral? && s != [] && s[0] == BACKSLASH && n >= 1 && LegacyDerives(s[1..], n - 1)
    case TemplateEscapeInvalid => kind.TemplateLiteral? && s != [] && s[0] == BACKSLASH && n >= 1 && NotEscape(s[1..], n - 1)
    case SurrogateEscape => exists e :: OpensUnpaired(e, s, kind) && n == |Spelling(e)|
  }

  /** The language has nothing for what is here, not even among the forms it keeps for old scripts. */
  ghost predicate Meaningless(s: seq<Scalar>, kind: Kind) {
    NoProduction(s, kind) && forall form, n :: !FormFits(s, kind, form, n)
  }

  // ---- a production that opens the content is read

  lemma ProductionReads(e: Element, s: seq<Scalar>, kind: Kind)
    requires OpensWith(e, s, kind)
    ensures s != []
    ensures !IsSurrogate(e) || Partnered(e, s, kind) ==> Next(s, kind).Take?
    ensures OpensUnpaired(e, s, kind) ==> Next(s, kind) == Refuse(SurrogateEscape, |Spelling(e)|)
  {
    hide Next, Derives, Spelling, MV;
    var w := |Spelling(e)|;
    assert s == Spelling(e) + s[w..];
    if !IsSurrogate(e) {
      ElementReads(e, s[w..], kind);
    } else if e.Braced? {
      BracedSurrogateReads(e, s, kind);
    } else {
      FourSurrogateReads(e, s, kind);
    }
  }

  lemma BracedSurrogateReads(e: Element, s: seq<Scalar>, kind: Kind)
    requires OpensWith(e, s, kind) && IsBracedSurrogate(e)
    ensures Next(s, kind) == Refuse(SurrogateEscape, |Spelling(e)|)
  {
    hide Next, MV, HexRun;
    var w, n := |Spelling(e)|, |e.digits|;
    assert s == Spelling(e) + s[w..];
    BracedParts(e.digits, s[w..]);
    HexRunIs(s[3..], n);
    BracedReads(s, kind);
  }

  lemma FourSurrogateReads(e: Element, s: seq<Scalar>, kind: Kind)
    requires OpensWith(e, s, kind) && (IsHigh(e) || IsLow(e))
    ensures Partnered(e, s, kind) ==> Next(s, kind).Take?
    ensures !Partnered(e, s, kind) ==> Next(s, kind) == Refuse(SurrogateEscape, |Spelling(e)|)
  {
    hide Next, MV, HexRun, Partnered;
    FourWidth(e, s[|Spelling(e)|..], kind);
    assert s[2..6] == e.digits && s[0] == BACKSLASH && s[1] == LOWER_U && s[2] == e.digits[0] by {
      assert s == Spelling(e) + s[6..];
    }
    assert IsHex(e.digits[0]);
    assert FourHex(s[2..]) by { assert forall i :: 0 <= i < 4 ==> s[2..][i] == e.digits[i]; }
    FourRead(s, kind);
    if IsHigh(e) {
      PartnerIs(e, s, kind);
    } else {
      LowHasNone(e, s, kind);
    }
  }

  lemma LowHasNone(e: Element, s: seq<Scalar>, kind: Kind)
    requires OpensWith(e, s, kind) && IsLow(e)
    ensures !Partnered(e, s, kind)
  {
  }

  predicate FourLow(s: seq<Scalar>) {
    && |s| > 7 && s[6] == BACKSLASH && s[7] == LOWER_U && FourHex(s[8..])
    && (assert s[8..][..4] == s[8..12]; IsLowSurrogate(MV(s[8..12])))
  }

  /** The partner, if there is one, is spelled by the six scalars that follow. */
  lemma PartnerIs(e: Element, s: seq<Scalar>, kind: Kind)
    requires OpensWith(e, s, kind) && IsHigh(e)
    ensures Partnered(e, s, kind) <==> FourLow(s)
  {
    hide MV;
    FourWidth(e, s[|Spelling(e)|..], kind);
    if FourLow(s) {
      var low := FourDigits(s[8..12]);
      assert s[8..12] == s[8..][..4];
      assert s[6..][..6] == Spelling(low);
      assert OpensWith(low, s[6..], kind);
    }
    if low :| IsLow(low) && OpensWith(low, s[6..], kind) {
      FourWidth(low, s[6..][|Spelling(low)|..], kind);
      LowParts(low, s);
    }
  }

  lemma LowParts(low: Element, s: seq<Scalar>)
    requires low.FourDigits? && |low.digits| == 4 && AllHex(low.digits) && |s| >= 12 && s[6..][..6] == Spelling(low)
    ensures s[6] == BACKSLASH && s[7] == LOWER_U && FourHex(s[8..]) && s[8..12] == low.digits
  {
    assert s[6..12] == s[6..][..6];
    assert s[6..12][2..] == s[8..12] == low.digits;
    assert forall i :: 0 <= i < 4 ==> s[8..][i] == s[8..12][i];
    assert s[6] == s[6..12][0] && s[7] == s[6..12][1];
  }

  // ---- what stands where nothing is read

  /** What the decoder takes, the grammar has a production for, whose surrogate half is completed. */
  lemma TakenOpens(s: seq<Scalar>, kind: Kind)
    requires s != [] && Next(s, kind).Take?
    ensures exists e :: OpensWith(e, s, kind) && (IsSurrogate(e) ==> Partnered(e, s, kind))
  {
    hide Next, ElementOf, MV, Derives, Spelling;
    ElementOpens(s, kind);
    var e := ElementOf(s, kind);
    assert OpensWith(e, s, kind);
    if IsHigh(e) {
      HighWidth(e, s, kind);
      LowOpens(s, kind);
    }
  }

  lemma HighWidth(e: Element, s: seq<Scalar>, kind: Kind)
    requires OpensWith(e, s, kind) && e.FourDigits?
    ensures |Spelling(e)| == 6
  {
  }

  lemma LowOpens(s: seq<Scalar>, kind: Kind)
    requires |s| >= 12 && IsLow(FourDigits(s[8..12])) && s[6..12] == Spelling(FourDigits(s[8..12]))
    ensures OpensWith(FourDigits(s[8..12]), s[6..], kind)
  {
    assert s[6..][..6] == s[6..12];
  }

  lemma RefusedSurrogate(s: seq<Scalar>, kind: Kind)
    requires s != [] && Next(s, kind).Refuse? && Next(s, kind).form == SurrogateEscape
    ensures FormFits(s, kind, SurrogateEscape, Next(s, kind).length) && Ascii(s, Next(s, kind).length)
  {
    hide Next, MV, HexRun, LegacyDerives, NotEscape;
    SurrogateIsUnicode(s, kind);
    if |s| > 2 && s[2] == OPEN_BRACE {
      BracedReads(s, kind);
      var n := HexRun(s[3..]);
      BracedSlices(s, n);
      var e := Braced(s[3..3 + n]);
      assert OpensWith(e, s, kind);
      ProductionReads(e, s, kind);
      assert OpensUnpaired(e, s, kind);
    } else {
      FourRead(s, kind);
      assert FourHex(s[2..]);
      var e := FourDigits(s[2..6]);
      assert s[..6] == Spelling(e);
      assert OpensWith(e, s, kind);
      ProductionReads(e, s, kind);
      assert OpensUnpaired(e, s, kind);
    }
  }

  lemma SurrogateIsUnicode(s: seq<Scalar>, kind: Kind)
    requires s != [] && Next(s, kind).Refuse? && Next(s, kind).form == SurrogateEscape
    ensures |s| > 1 && s[0] == BACKSLASH && s[1] == LOWER_U
  {
    hide Unicode, LegacyLength, MV, HexRun;
  }

  /** The grammar derives exactly one prefix of a legacy escape, and that is where `legacy_end` stops. */
  lemma LegacyLengthDerives(s: seq<Scalar>, n: nat)
    requires s != [] && IsDigit(s[0]) && (s[0] == DIGIT_ZERO ==> |s| > 1 && IsDigit(s[1]))
    ensures LegacyDerives(s, n) <==> n == LegacyLength(s)
  {
  }

  /** A string refuses a legacy escape exactly where Annex B derives one, and takes all of it. */
  lemma LegacyExactly(s: seq<Scalar>, kind: Kind, n: nat)
    requires s != []
    ensures Next(s, kind) == Refuse(LegacyEscape, n) <==> FormFits(s, kind, LegacyEscape, n)
    ensures Next(s, kind) == Refuse(LegacyEscape, n) ==> Ascii(s, n)
  {
    hide LegacyDerives, NotEscape, LegacyLength, MV, HexRun;
    if s[0] == BACKSLASH && |s| > 1 && s[1] == LOWER_U {
      UnicodeNotLegacy(s, kind, n);
    } else if s[0] == BACKSLASH && kind.StringLiteral? && |s| > 1 && IsDigit(s[1])
              && (s[1] == DIGIT_ZERO ==> |s| > 2 && IsDigit(s[2])) {
      if n >= 1 {
        LegacyLengthDerives(s[1..], n - 1);
      }
      assert Next(s, kind) == Refuse(LegacyEscape, 1 + LegacyLength(s[1..]));
      LegacyIsAscii(s);
    } else {
      NotLegacy(s, kind, n);
    }
  }

  lemma UnicodeNotLegacy(s: seq<Scalar>, kind: Kind, n: nat)
    requires |s| > 1 && s[0] == BACKSLASH && s[1] == LOWER_U
    ensures Next(s, kind) != Refuse(LegacyEscape, n) && !FormFits(s, kind, LegacyEscape, n)
  {
    hide MV, HexRun, NotEscape;
  }

  lemma NotLegacy(s: seq<Scalar>, kind: Kind, n: nat)
    requires s != [] && !(|s| > 1 && s[0] == BACKSLASH && s[1] == LOWER_U)
    requires !(s[0] == BACKSLASH && kind.StringLiteral? && |s| > 1 && IsDigit(s[1])
               && (s[1] == DIGIT_ZERO ==> |s| > 2 && IsDigit(s[2])))
    ensures Next(s, kind) != Refuse(LegacyEscape, n) && !FormFits(s, kind, LegacyEscape, n)
  {
    hide Unicode, LegacyLength, NotEscape;
  }

  lemma LegacyIsAscii(s: seq<Scalar>)
    requires |s| > 1 && s[0] == BACKSLASH && IsDigit(s[1])
    ensures Ascii(s, 1 + LegacyLength(s[1..]))
  {
    var n := LegacyLength(s[1..]);
    assert forall i :: 0 <= i < n ==> IsDigit(s[1..][i]);
    assert forall i :: 1 <= i < 1 + n ==> s[i] == s[1..][i - 1];
  }

  /** A template refuses an escape exactly where section 12.9.6 has a NotEscapeSequence, and takes all of it. */
  lemma NotEscapeExactly(s: seq<Scalar>, kind: Kind, n: nat)
    requires s != []
    ensures Next(s, kind) == Refuse(TemplateEscapeInvalid, n) <==> FormFits(s, kind, TemplateEscapeInvalid, n)
    ensures Next(s, kind) == Refuse(TemplateEscapeInvalid, n) ==> Ascii(s, n)
  {
    hide LegacyDerives, LegacyLength, MV, HexRun;
    if s[0] == BACKSLASH && |s| > 1 && s[1] == LOWER_U {
      if |s| > 2 && s[2] == OPEN_BRACE {
        BracedNotEscape(s, kind, n);
      } else {
        FourNotEscape(s, kind, n);
      }
    } else {
      hide Unicode, NotCodePoint;
      assert n >= 1 && |s| > 1 ==> s[1..][0] == s[1];
      assert |s| > 2 ==> s[1..][1] == s[2];
      assert |s| > 3 ==> s[1..][2] == s[3];
    }
  }

  /** The same stretch of `s`, counted from its start and from after the backslash. */
  lemma Shift(s: seq<Scalar>, k: nat, m: nat)
    requires 1 + k + m <= |s|
    ensures s[1 + k..][..m] == s[1 + k..1 + k + m] == s[1..][k..k + m]
    ensures m < |s[1 + k..]| ==> s[1 + k..][m] == s[1 + k + m] == s[1..][k + m]
  {
    var part := s[1 + k..1 + k + m];
    assert s[1 + k..][..m] == part;
    assert s[1..][k..k + m] == part;
  }

  lemma BracedNotEscape(s: seq<Scalar>, kind: Kind, n: nat)
    requires |s| > 2 && s[0] == BACKSLASH && s[1] == LOWER_U && s[2] == OPEN_BRACE
    ensures Next(s, kind) == Refuse(TemplateEscapeInvalid, n) <==> FormFits(s, kind, TemplateEscapeInvalid, n)
    ensures Next(s, kind) == Refuse(TemplateEscapeInvalid, n) ==> Ascii(s, n)
  {
    hide Next, MV, HexRun, NotEscape, NotCodePoint, LegacyDerives;
    BracedReads(s, kind);
    var m := HexRun(s[3..]);
    Shift(s, 2, m);
    if n >= 1 {
      BracedForms(s, n - 1);
      BracedRun(s, n - 1);
    }
  }

  /** Digits in a brace are all the digits there are. */
  lemma BracedRun(s: seq<Scalar>, n: nat)
    requires |s| > 2
    ensures HexAt(s, 3) <==> HexRun(s[3..]) > 0
    ensures 2 < n <= |s| - 1 ==>
              var m := HexRun(s[3..]);
              (NotCodePoint(s[1..], n)
               <==> n == 2 + m && (MV(s[3..][..m]) > MAX_SCALAR || 3 + m == |s| || s[3 + m] != CLOSE_BRACE))
  {
    hide MV;
    if 2 < n <= |s| - 1 {
      var m := HexRun(s[3..]);
      Shift(s, 2, m);
      Shift(s, 2, n - 2);
      if AllHex(s[1..][2..n]) && !HexAt(s[1..], n) {
        HexRunIs(s[3..], n - 2);
      }
    }
  }

  /** After `u` and a brace only one form of NotEscapeSequence is possible for each length. */
  lemma BracedForms(s: seq<Scalar>, n: nat)
    requires |s| > 2 && s[1] == LOWER_U && s[2] == OPEN_BRACE
    ensures NotEscape(s[1..], n)
       <==> 2 <= n <= |s| - 1 && if n == 2 then !HexAt(s, 3) else NotCodePoint(s[1..], n)
  {
    hide MV, NotCodePoint;
    NoDigits(s, n + 1);
  }

  /** The brace is not a digit, so no shorter NotEscapeSequence is there. */
  lemma NoDigits(s: seq<Scalar>, n: nat)
    requires |s| > 2 && s[2] == OPEN_BRACE
    ensures 3 <= n <= |s| ==> !AllHex(s[1..][1..n - 1])
  {
    if 3 <= n <= |s| {
      assert s[1..][1..n - 1][0] == OPEN_BRACE;
    }
  }

  lemma FourNotEscape(s: seq<Scalar>, kind: Kind, n: nat)
    requires |s| > 1 && s[0] == BACKSLASH && s[1] == LOWER_U && (|s| > 2 ==> s[2] != OPEN_BRACE)
    ensures Next(s, kind) == Refuse(TemplateEscapeInvalid, n) <==> FormFits(s, kind, TemplateEscapeInvalid, n)
    ensures Next(s, kind) == Refuse(TemplateEscapeInvalid, n) ==> Ascii(s, n)
  {
    hide Next, MV, HexRun, LegacyDerives;
    FourRead(s, kind);
    var m := HexRun(s[2..]);
    Shift(s, 1, m);
    DigitsBefore(s, m);
    if 3 <= n <= 5 && n <= |s| && AllHex(s[1..][1..n - 1]) && !HexAt(s[1..], n - 1) {
      Shift(s, 1, n - 2);
      HexRunIs(s[2..], n - 2);
    }
  }

  /** There are four digits exactly when the run of digits has four. */
  lemma DigitsBefore(s: seq<Scalar>, m: nat)
    requires |s| > 1 && m <= |s| - 2 && AllHex(s[2..2 + m]) && (2 + m < |s| ==> !IsHex(s[2 + m]))
    ensures FourHex(s[2..]) <==> m >= 4
    ensures forall i :: 2 <= i < 2 + m ==> IsHex(s[i])
  {
    forall i | 2 <= i < 2 + m
      ensures IsHex(s[i])
    {
      assert IsHex(s[2..2 + m][i - 2]);
    }
  }

  /** What the decoder does at one place is what stands there. */
  lemma NextExactly(s: seq<Scalar>, kind: Kind)
    requires s != []
    ensures Next(s, kind).Take? <==> exists e :: OpensWith(e, s, kind) && !OpensUnpaired(e, s, kind)
    ensures forall form, n :: Next(s, kind) == Refuse(form, n) <==> FormFits(s, kind, form, n)
    ensures Next(s, kind) == Disagree <==> Meaningless(s, kind)
    ensures forall n :: Next(s, kind) == Refuse(LegacyEscape, n) || Next(s, kind) == Refuse(TemplateEscapeInvalid, n) ==>
                          NoProduction(s, kind)
  {
    hide Next, OpensWith, LegacyDerives, NotEscape;
    forall e | OpensWith(e, s, kind)
      ensures if OpensUnpaired(e, s, kind) then Next(s, kind) == Refuse(SurrogateEscape, |Spelling(e)|) else Next(s, kind).Take?
    {
      ProductionReads(e, s, kind);
    }
    if Next(s, kind).Take? {
      TakenOpens(s, kind);
    }
    forall form, n
      ensures Next(s, kind) == Refuse(form, n) <==> FormFits(s, kind, form, n)
    {
      match form
      case LegacyEscape => LegacyExactly(s, kind, n);
      case TemplateEscapeInvalid => NotEscapeExactly(s, kind, n);
      case SurrogateEscape =>
        if Next(s, kind) == Refuse(SurrogateEscape, n) {
          RefusedSurrogate(s, kind);
        }
    }
  }

  // ---- the content before that place

  /** `es` is a derivation of the content it spells, when `rest` comes after it. */
  predicate DerivesBefore(es: seq<Element>, rest: seq<Scalar>, kind: Kind) {
    es == [] || (Derives(es[0], Spelled(es[1..]) + rest, kind) && DerivesBefore(es[1..], rest, kind))
  }

  /** The first `a` scalars are spelled by productions in which every surrogate half has its partner, so that a half
      standing next has none before it. */
  ghost predicate ReadTo(content: seq<Scalar>, kind: Kind, a: nat) {
    a <= |content| && exists es :: ReadAs(es, content[..a], content[a..], kind)
  }

  predicate ReadAs(es: seq<Element>, front: seq<Scalar>, rest: seq<Scalar>, kind: Kind) {
    DerivesBefore(es, rest, kind) && WellPaired(es) && Spelled(es) == front
  }

  lemma {:induction false} ReadScans(es: seq<Element>, rest: seq<Scalar>, kind: Kind)
    requires DerivesBefore(es, rest, kind) && WellPaired(es)
    ensures var whole, after := Scan(Spelled(es) + rest, kind), Scan(rest, kind);
            whole.ending == after.ending && |SourceOf(whole.steps)| == |Spelled(es)| + |SourceOf(after.steps)|
    decreases |es|
  {
    hide Scan, Next, Derives, Spelling, SourceOf, IsHigh, IsLow, IsBracedSurrogate, WellPaired;
    if es == [] {
      assert Spelled(es) + rest == rest;
    } else if IsHigh(es[0]) {
      PairParts(es, rest, kind);
      WellPairedTail(es, 2);
      ReadScans(es[2..], rest, kind);
      PairReads(es[0], es[1], Spelled(es[2..]) + rest, kind);
      var s := Spelled(es) + rest;
      OneStepOn(s, kind, Spelling(es[0]) + Spelling(es[1]), Spelled(es[2..]) + rest);
    } else {
      NotHigh(es);
      WellPairedTail(es, 1);
      ReadScans(es[1..], rest, kind);
      ElementReads(es[0], Spelled(es[1..]) + rest, kind);
      var s := Spelled(es) + rest;
      assert s == Spelling(es[0]) + (Spelled(es[1..]) + rest);
      OneStepOn(s, kind, Spelling(es[0]), Spelled(es[1..]) + rest);
    }
  }

  lemma NotHigh(es: seq<Element>)
    requires WellPaired(es) && es != [] && !IsHigh(es[0])
    ensures !IsSurrogate(es[0])
  {
  }

  lemma PairParts(es: seq<Element>, rest: seq<Scalar>, kind: Kind)
    requires DerivesBefore(es, rest, kind) && WellPaired(es) && es != [] && IsHigh(es[0])
    ensures |es| >= 2 && IsLow(es[1]) && |es[0].digits| == |es[1].digits| == 4 && DerivesBefore(es[2..], rest, kind)
    ensures Spelled(es) + rest == Spelling(es[0]) + (Spelling(es[1]) + (Spelled(es[2..]) + rest))
    ensures Spelled(es) + rest == (Spelling(es[0]) + Spelling(es[1])) + (Spelled(es[2..]) + rest)
    ensures |Spelled(es)| == |Spelling(es[0]) + Spelling(es[1])| + |Spelled(es[2..])|
  {
    hide MV, Spelling;
    assert IsLow(es[1]);
    assert es[1..][0] == es[1] && es[1..][1..] == es[2..];
    assert Spelled(es) == Spelling(es[0]) + (Spelling(es[1]) + Spelled(es[2..]));
  }

  lemma OneStepOn(s: seq<Scalar>, kind: Kind, source: seq<Scalar>, tail: seq<Scalar>)
    requires s == source + tail && s != [] && Next(s, kind).Take? && Next(s, kind).step.Source() == source
    ensures Scan(s, kind).ending == Scan(tail, kind).ending
    ensures |SourceOf(Scan(s, kind).steps)| == |source| + |SourceOf(Scan(tail, kind).steps)|
  {
    hide Next;
    var step := Next(s, kind).step;
    ScanTakes(s, kind, step);
    assert s[|source|..] == tail;
    assert ([step] + Scan(tail, kind).steps)[1..] == Scan(tail, kind).steps;
  }

  lemma ReadCons(e: Element, es: seq<Element>, s: seq<Scalar>, w: nat, front: seq<Scalar>, rest: seq<Scalar>, kind: Kind)
    requires w <= |s| && s[..w] == Spelling(e) && Derives(e, s[w..], kind)
    requires DerivesBefore(es, rest, kind) && Spelled(es) == front && s[w..] == front + rest
    ensures DerivesBefore([e] + es, rest, kind) && Spelled([e] + es) == s[..w] + front
  {
    hide Derives, Spelling;
    assert ([e] + es)[1..] == es;
  }

  lemma {:induction false} ScanIsRead(s: seq<Scalar>, kind: Kind) returns (es: seq<Element>)
    ensures var a := |SourceOf(Scan(s, kind).steps)|;
            a <= |s| && ReadAs(es, s[..a], s[a..], kind)
    ensures var Scanned(steps, ending) := Scan(s, kind);
            var rest := s[|SourceOf(steps)|..];
            && (ending.Complete? <==> rest == [])
            && (rest != [] ==> ending == match Next(rest, kind)
                                         case Refuse(form, n) => Refused(form, n)
                                         case _ => Disagreed)
            && (rest != [] ==> !Next(rest, kind).Take?)
    decreases |s|
  {
    hide Next, Opens, ElementOf, SourceOf, Derives, Spelling;
    if s == [] || !Next(s, kind).Take? {
      es := [];
      NothingRead(s, kind);
    } else {
      NextConsumes(s, kind);
      var step := Next(s, kind).step;
      var n := |step.Source()|;
      assert s == step.Source() + s[n..];
      OneStepOn(s, kind, step.Source(), s[n..]);
      es := ScanIsRead(s[n..], kind);
      var b := |SourceOf(Scan(s[n..], kind).steps)|;
      assert s[n..][b..] == s[n + b..] && s[n..][..b] == s[n..n + b];
      ElementOpens(s, kind);
      es := OpenedReads(ElementOf(s, kind), s, kind, n, es, b);
    }
  }

  lemma NothingRead(s: seq<Scalar>, kind: Kind)
    requires s == [] || !Next(s, kind).Take?
    ensures SourceOf(Scan(s, kind).steps) == [] && DerivesBefore([], s, kind) && WellPaired([]) && Spelled([]) == []
    ensures s == [] ==> Scan(s, kind).ending.Complete?
    ensures s != [] ==> Scan(s, kind).ending == match Next(s, kind)
                                                case Refuse(form, n) => Refused(form, n)
                                                case _ => Disagreed
  {
    hide Next;
  }

  lemma OpenedReads(e: Element, s: seq<Scalar>, kind: Kind, n: nat, es: seq<Element>, b: nat) returns (all: seq<Element>)
    requires n + b <= |s| && Opens(e, s, kind, n) && ReadAs(es, s[n..n + b], s[n + b..], kind)
    ensures ReadAs(all, s[..n + b], s[n + b..], kind)
  {
    hide Derives, WellPaired, Spelled, DerivesBefore, Spelling;
    var w, rest := |Spelling(e)|, s[n + b..];
    assert s[n..] == s[n..n + b] + rest;
    if IsHigh(e) {
      var low := FourDigits(s[8..12]);
      LowDerives(low, s[12..], kind);
      FourWidth(e, s[w..], kind);
      Slices(s);
      ReadCons(low, es, s[6..], 6, s[12..12 + b], rest, kind);
      assert s[6..12] + s[12..12 + b] == s[6..12 + b];
      assert s[6..] == s[6..12 + b] + rest;
      ReadCons(e, [low] + es, s, 6, s[6..12 + b], rest, kind);
      WellPairedCons([e, low], es);
      all := [e] + ([low] + es);
      assert all == [e, low] + es;
      assert s[..6] + s[6..12 + b] == s[..12 + b];
    } else {
      ReadCons(e, es, s, w, s[n..n + b], rest, kind);
      WellPairedCons([e], es);
      all := [e] + es;
      assert s[..w] + s[n..n + b] == s[..n + b];
    }
  }

  /** Where the decoder stops, and for what. */
  lemma StopIsRead(content: seq<Scalar>, kind: Kind)
    ensures var Scanned(steps, ending) := Scan(content, kind);
            var a := |SourceOf(steps)|;
            && ReadTo(content, kind, a)
            && (ending.Complete? <==> a == |content|)
            && (forall form, n :: ending == Refused(form, n) <==> a < |content| && FormFits(content[a..], kind, form, n))
            && (ending == Disagreed <==> a < |content| && Meaningless(content[a..], kind))
  {
    hide Next, FormFits, Meaningless, NoProduction, OpensWith, ReadAs, SourceOf, Scan, OpensUnpaired;
    var es := ScanIsRead(content, kind);
    var a := |SourceOf(Scan(content, kind).steps)|;
    if a < |content| {
      NextExactly(content[a..], kind);
    }
  }

  /** Only one place of a content can stop it. */
  lemma StopsThere(content: seq<Scalar>, kind: Kind, a: nat)
    requires ReadTo(content, kind, a) && a < |content|
    requires Meaningless(content[a..], kind) || exists form, n :: FormFits(content[a..], kind, form, n)
    ensures a == |SourceOf(Scan(content, kind).steps)|
  {
    hide Next, FormFits, Meaningless, NoProduction, OpensWith, SourceOf, DerivesBefore, WellPaired, OpensUnpaired;
    var rest := content[a..];
    NextExactly(rest, kind);
    var es :| ReadAs(es, content[..a], rest, kind);
    ReadScans(es, rest, kind);
    assert content == Spelled(es) + rest;
    NothingRead(rest, kind);
  }

  // ---- the failures of decoding

  /** The refused escape runs from a backslash over whole, ASCII scalars of the content. */
  ghost predicate PointsAt(content: seq<Scalar>, start: nat, range: ByteRange, a: nat, b: nat) {
    && a < b <= |content| && content[a] == BACKSLASH
    && (forall i :: a <= i < b ==> content[i] < 0x80)
    && range == ByteRange(start + |Encode(content[..a])|, start + |Encode(content[..b])|)
  }

  /** Everything before `a` is read, and what stands from `a` to `b` is what the form names. */
  ghost predicate RefusedAt(content: seq<Scalar>, kind: Kind, form: Unsupported, a: nat, b: nat) {
    ReadTo(content, kind, a) && a < b <= |content| && FormFits(content[a..], kind, form, b - a)
  }

  /** Everything before `a` is read, and the language has nothing for what stands there. */
  ghost predicate StuckAt(content: seq<Scalar>, kind: Kind, a: nat) {
    ReadTo(content, kind, a) && a < |content| && Meaningless(content[a..], kind)
  }

  lemma RefusedEscape(s: seq<Scalar>, kind: Kind)
    requires s != [] && Next(s, kind).Refuse?
    ensures s[0] == BACKSLASH && 0 < Next(s, kind).length <= |s| && Ascii(s, Next(s, kind).length)
    ensures FormFits(s, kind, Next(s, kind).form, Next(s, kind).length)
  {
    hide Next, FormFits;
    NextConsumes(s, kind);
    match Next(s, kind).form
    case LegacyEscape => LegacyExactly(s, kind, Next(s, kind).length);
    case TemplateEscapeInvalid => NotEscapeExactly(s, kind, Next(s, kind).length);
    case SurrogateEscape => RefusedSurrogate(s, kind);
  }

  lemma FitIsRefused(s: seq<Scalar>, kind: Kind, form: Unsupported, n: nat)
    requires s != [] && FormFits(s, kind, form, n)
    ensures Next(s, kind) == Refuse(form, n) && s[0] == BACKSLASH && 0 < n <= |s| && Ascii(s, n)
  {
    hide Next, FormFits, OpensWith, OpensUnpaired, NoProduction, Meaningless;
    NextExactly(s, kind);
    RefusedEscape(s, kind);
  }

  /** The bytes a refusal names are those from `a` to `b`. */
  lemma RangeOf(content: seq<Scalar>, start: nat, a: nat, b: nat)
    requires a < b <= |content| && content[a] == BACKSLASH && Ascii(content[a..], b - a)
    ensures var at := start + |Encode(content[..a])|; PointsAt(content, start, ByteRange(at, at + (b - a)), a, b)
  {
    hide Encode;
    var rest, n := content[a..], b - a;
    AsciiOnly(rest[..n]);
    assert content[..b] == content[..a] + rest[..n];
    EncodeConcat(content[..a], rest[..n]);
    assert forall i :: a <= i < b ==> content[i] == rest[i - a];
  }

  lemma FreeFailure(content: seq<Scalar>, start: nat, kind: Kind)
    ensures |SourceOf(Scan(content, kind).steps)| <= |content|
    ensures var Scanned(steps, ending) := Scan(content, kind);
            var free := InputMap.Free(content, start, kind);
            var at := start + |Encode(content[..|SourceOf(steps)|])|;
            && (free.Ok? <==> ending.Complete?)
            && (forall form, n :: ending == Refused(form, n) ==> free == Err(UnsupportedForm(form, ByteRange(at, at + n))))
            && (ending == Disagreed ==> free == Err(Disagreement))
  {
    hide Scan, MapOf, Segments, Settled, Encode, TextOf, SourceOf;
    InputMap.SegmentLimitExact(content, start, kind, 0);
    InputMap.ScanReads(content, kind);
  }

  /** Decoding is refused exactly where, everything before being read, the form named is the form that is there:
      a surrogate half or braced surrogate without its partner, a legacy escape of Annex B in a string, or a
      NotEscapeSequence in a template; and the range is all of it, from its backslash. */
  lemma RefusedExactly(content: seq<Scalar>, start: nat, kind: Kind, form: Unsupported, range: ByteRange)
    ensures InputMap.Free(content, start, kind) == Err(UnsupportedForm(form, range))
       <==> exists a: nat, b: nat :: RefusedAt(content, kind, form, a, b) && PointsAt(content, start, range, a, b)
  {
    hide Scan, Next, FormFits, ReadTo, SourceOf, Encode, Meaningless, InputMap.Free;
    StopIsRead(content, kind);
    FreeFailure(content, start, kind);
    var Scanned(steps, ending) := Scan(content, kind);
    var a := |SourceOf(steps)|;
    if InputMap.Free(content, start, kind) == Err(UnsupportedForm(form, range)) {
      var n := ending.length;
      FitIsRefused(content[a..], kind, form, n);
      RangeOf(content, start, a, a + n);
      assert RefusedAt(content, kind, form, a, a + n);
    }
    if c: nat, b: nat :| RefusedAt(content, kind, form, c, b) && PointsAt(content, start, range, c, b) {
      StopsThere(content, kind, c);
      FitIsRefused(content[a..], kind, form, b - a);
      RangeOf(content, start, a, b);
    }
  }

  /** Decoding disagrees with the parser exactly where, everything before being read, the language has nothing for
      what stands there, the forms it keeps for old scripts and the invalid escapes of templates included. */
  lemma DisagreesExactly(content: seq<Scalar>, start: nat, kind: Kind)
    ensures InputMap.Free(content, start, kind) == Err(Disagreement) <==> exists a: nat :: StuckAt(content, kind, a)
  {
    hide Scan, Next, FormFits, ReadTo, SourceOf, Encode, Meaningless, InputMap.Free;
    StopIsRead(content, kind);
    FreeFailure(content, start, kind);
    if InputMap.Free(content, start, kind) == Err(Disagreement) {
      assert StuckAt(content, kind, |SourceOf(Scan(content, kind).steps)|);
    }
    if a: nat :| StuckAt(content, kind, a) {
      StopsThere(content, kind, a);
    }
  }

  /** Every refusal, under any limit, names the form that is there and points at exactly that escape; where the form
      is not a surrogate no production of the language opens what is left. */
  lemma RefusalPlaced(content: seq<Scalar>, start: nat, kind: Kind, limit: nat) returns (a: nat, b: nat)
    requires Decoded(content, start, kind, limit).Err? && Decoded(content, start, kind, limit).error.UnsupportedForm?
    ensures var refused := Decoded(content, start, kind, limit).error;
            && RefusedAt(content, kind, refused.form, a, b) && PointsAt(content, start, refused.range, a, b)
            && (refused.form != SurrogateEscape ==> NoProduction(content[a..], kind))
  {
    hide Scan, Next, FormFits, ReadTo, SourceOf, Encode, Meaningless, NoProduction, OpensWith, OpensUnpaired, Decoded;
    InputMap.SegmentLimitExact(content, start, kind, limit);
    var refused := Decoded(content, start, kind, limit).error;
    RefusedExactly(content, start, kind, refused.form, refused.range);
    a, b :| RefusedAt(content, kind, refused.form, a, b) && PointsAt(content, start, refused.range, a, b);
    NextExactly(content[a..], kind);
  }
}
