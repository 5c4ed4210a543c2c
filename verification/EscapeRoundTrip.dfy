/** Spelling text as Unicode escapes and decoding it again. */
module EscapeRoundTrip {
  import opened Utf8
  import opened Literal
  import opened EcmaLiteral

  /** `es` is one of the spellings of `c`: braced with any number of leading zeros, four digits, or
      an adjacent surrogate pair, in either letter case. */
  predicate SpellsScalar(es: seq<Element>, c: Scalar) {
    || (|es| == 1 && es[0].Braced? && es[0].digits != [] && AllHex(es[0].digits) && MV(es[0].digits) == c)
    || (|es| == 1 && es[0].FourDigits? && |es[0].digits| == 4 && AllHex(es[0].digits) && MV(es[0].digits) == c)
    || (|es| == 2 && IsHigh(es[0]) && IsLow(es[1]) && |es[0].digits| == |es[1].digits| == 4
        && Paired(MV(es[0].digits), MV(es[1].digits)) == c)
  }

  predicate SpellsText(spellings: seq<seq<Element>>, text: seq<Scalar>) {
    |spellings| == |text| && forall i :: 0 <= i < |text| ==> SpellsScalar(spellings[i], text[i])
  }

  function Flatten(spellings: seq<seq<Element>>): seq<Element> {
    if spellings == [] then [] else spellings[0] + Flatten(spellings[1..])
  }

  lemma FrontDerives(front: seq<Element>, c: Scalar, es: seq<Element>, kind: Kind)
    requires SpellsScalar(front, c) && IsDerivation(es, kind) && WellPaired(es)
    ensures IsDerivation(front + es, kind) && WellPaired(front + es)
    ensures ValueOf(front + es, kind) == Utf16EncodeCodePoint(c) + ValueOf(es, kind)
  {
    hide WellPaired, MV, IsDerivation, ValueOf, Utf16EncodeCodePoint;
    WellPairedCons(front, es);
    if |front| == 1 {
      OneDerives(front, c, es, kind);
    } else {
      PairDerives(front, c, es, kind);
    }
  }

  lemma OneDerives(front: seq<Element>, c: Scalar, es: seq<Element>, kind: Kind)
    requires SpellsScalar(front, c) && IsDerivation(es, kind) && |front| == 1
    ensures IsDerivation(front + es, kind)
    ensures ValueOf(front + es, kind) == Utf16EncodeCodePoint(c) + ValueOf(es, kind)
  {
    hide WellPaired, MV;
    assert (front + es)[0] == front[0] && (front + es)[1..] == es;
    if front[0].FourDigits? {
      MVFour(front[0].digits);
    }
  }

  lemma PairDerives(front: seq<Element>, c: Scalar, es: seq<Element>, kind: Kind)
    requires SpellsScalar(front, c) && IsDerivation(es, kind) && |front| == 2
    ensures IsDerivation(front + es, kind)
    ensures ValueOf(front + es, kind) == Utf16EncodeCodePoint(c) + ValueOf(es, kind)
  {
    hide WellPaired, MV;
    var all := front + es;
    assert all[1..] == [front[1]] + es && all[1..][1..] == es;
    PairedEncodes(MV(front[0].digits), MV(front[1].digits));
  }

  lemma {:induction false} SpellingDerives(spellings: seq<seq<Element>>, text: seq<Scalar>, kind: Kind)
    requires SpellsText(spellings, text)
    ensures var es := Flatten(spellings);
            IsDerivation(es, kind) && WellPaired(es) && ValueOf(es, kind) == Utf16(text)
  {
    hide SpellsScalar, WellPaired;
    if text == [] {
      Nothing(kind);
    } else {
      SpellingDerives(spellings[1..], text[1..], kind);
      FrontDerives(spellings[0], text[0], Flatten(spellings[1..]), kind);
    }
  }

  lemma Nothing(kind: Kind)
    ensures IsDerivation([], kind) && WellPaired([]) && ValueOf([], kind) == Utf16([])
  {
  }

  /** Decoding undoes the spelling, whichever form each scalar took. */
  lemma RoundTrip(spellings: seq<seq<Element>>, text: seq<Scalar>, start: nat, kind: Kind)
    requires SpellsText(spellings, text)
    ensures DecodesTo(Spelled(Flatten(spellings)), start, kind, text)
  {
    hide *;
    var es := Flatten(spellings);
    SpellingDerives(spellings, text, kind);
    ValueDecodes(es, text, start, kind);
  }

  // ---- every scalar has these spellings

  function HexDigit(v: nat): (c: Scalar)
    requires v < 16
    ensures IsHex(c) && HexValue(c) == v
  {
    if v < 10 then 0x30 + v else 0x61 + (v - 10)
  }

  /** The hexadecimal digits of `n` in `width` places. */
  function HexDigits(n: nat, width: nat): (ds: seq<Scalar>)
    ensures |ds| == width && AllHex(ds)
  {
    if width == 0 then [] else HexDigits(n / 16, width - 1) + [HexDigit(n % 16)]
  }

  function Power16(k: nat): nat {
    if k == 0 then 1 else Power16(k - 1) * 16
  }

  lemma {:induction false} HexDigitsValue(n: nat, width: nat)
    requires n < Power16(width)
    ensures MV(HexDigits(n, width)) == n
  {
    if width > 0 {
      HexDigitsValue(n / 16, width - 1);
      var ds := HexDigits(n, width);
      assert ds[..|ds| - 1] == HexDigits(n / 16, width - 1);
    }
  }

  lemma PowersOf16(width: nat)
    ensures Power16(4) == 0x1_0000 && Power16(6) == 0x100_0000
    ensures width >= 6 ==> Power16(width) >= 0x100_0000
  {
    assert Power16(1) == 16 && Power16(2) == 0x100 && Power16(3) == 0x1000;
    assert Power16(4) == 0x1_0000 && Power16(5) == 0x10_0000;
    if width > 6 {
      PowersOf16(width - 1);
    }
  }

  /** Any width from six digits up spells every scalar, so any number of leading zeros may be written. */
  lemma BracedSpelling(c: Scalar, width: nat)
    requires width >= 6
    ensures SpellsScalar([Braced(HexDigits(c, width))], c)
  {
    PowersOf16(width);
    HexDigitsValue(c, width);
  }

  lemma FourDigitSpelling(c: Scalar)
    requires c <= 0xFFFF
    ensures SpellsScalar([FourDigits(HexDigits(c, 4))], c)
  {
    PowersOf16(4);
    HexDigitsValue(c, 4);
  }

  lemma PairSpelling(c: Scalar)
    requires c > 0xFFFF
    ensures var units := Utf16EncodeCodePoint(c);
            SpellsScalar([FourDigits(HexDigits(units[0], 4)), FourDigits(HexDigits(units[1], 4))], c)
  {
    hide HexDigits, Power16, MV;
    PowersOf16(4);
    var units := Utf16EncodeCodePoint(c);
    HexDigitsValue(units[0], 4);
    HexDigitsValue(units[1], 4);
  }
}
