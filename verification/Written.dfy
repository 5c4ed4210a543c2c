/** The escapes of a literal written out character by character, in numbers and in either letter case, without any
    of the decoder's own readings: what decodes is exactly what can be written so, and to the text so written. */
module Written {
  import opened Utf8
  import opened Literal
  import opened EcmaLiteral
  import opened EscapeRoundTrip

  type Nibble = n: nat | n < 16

  /** One hexadecimal digit as it may be written. */
  datatype Digit = Digit(value: Nibble, upper: bool)

  function Numeral(d: Digit): Scalar {
    if d.value < 10 then 0x30 + d.value else if d.upper then 0x41 + (d.value - 10) else 0x61 + (d.value - 10)
  }

  function Numerals(ds: seq<Digit>): (s: seq<Scalar>)
    ensures |s| == |ds| && forall i :: 0 <= i < |ds| ==> s[i] == Numeral(ds[i])
  {
    seq(|ds|, i requires 0 <= i < |ds| => Numeral(ds[i]))
  }

  /** The number the digits stand for, each with its own power of sixteen. */
  function Number(ds: seq<Digit>): nat {
    if ds == [] then 0 else ds[0].value * Power16(|ds| - 1) + Number(ds[1..])
  }

  /** One thing written in a literal. */
  datatype Form =
    | AsIs(c: Scalar)
    | Return(crlf: bool)
    | Continued(terminator: seq<Scalar>)
    | Letter(c: Scalar)
    | Itself(c: Scalar)
    | Null
    | TwoDigits(high: Digit, low: Digit)
    | FourNumerals(ds: seq<Digit>)
    | InBraces(ds: seq<Digit>)
    | Halves(first: seq<Digit>, second: seq<Digit>)

  /** The characters it is written with. */
  function Chars(form: Form): seq<Scalar> {
    match form
    case AsIs(c) => [c]
    case Return(crlf) => if crlf then [0x0D, 0x0A] else [0x0D]
    case Continued(terminator) => [0x5C] + terminator
    case Letter(c) => [0x5C, c]
    case Itself(c) => [0x5C, c]
    case Null => [0x5C, 0x30]
    case TwoDigits(high, low) => [0x5C, 0x78, Numeral(high), Numeral(low)]
    case FourNumerals(ds) => [0x5C, 0x75] + Numerals(ds)
    case InBraces(ds) => [0x5C, 0x75, 0x7B] + Numerals(ds) + [0x7D]
    case Halves(first, second) => [0x5C, 0x75] + Numerals(first) + [0x5C, 0x75] + Numerals(second)
  }

  predicate IsScalar(n: nat) {
    n < 0xD800 || 0xE000 <= n < 0x11_0000
  }

  /** It may be written so, where `following` comes next. */
  predicate Fits(form: Form, following: seq<Scalar>, kind: Kind) {
    match form
    case AsIs(c) => c != 0x5C && !(kind.TemplateLiteral? && c == 0x0D)
    case Return(crlf) => kind.TemplateLiteral? && (crlf || following == [] || following[0] != 0x0A)
    case Continued(t) =>
      || t == [0x0A] || t == [0x0D, 0x0A] || t == [0x2028] || t == [0x2029]
      || (t == [0x0D] && (following == [] || following[0] != 0x0A))
    case Letter(c) => c == 0x62 || c == 0x66 || c == 0x6E || c == 0x72 || c == 0x74 || c == 0x76
    case Itself(c) =>
      && c != 0x0A && c != 0x0D && c != 0x2028 && c != 0x2029 && !(0x30 <= c <= 0x39)
      && c != 0x62 && c != 0x66 && c != 0x6E && c != 0x72 && c != 0x74 && c != 0x76 && c != 0x75 && c != 0x78
    case Null => following == [] || !(0x30 <= following[0] <= 0x39)
    case TwoDigits(_, _) => true
    case FourNumerals(ds) => |ds| == 4 && IsScalar(Number(ds))
    case InBraces(ds) => ds != [] && IsScalar(Number(ds))
    case Halves(first, second) =>
      && |first| == |second| == 4
      && 0xD800 <= Number(first) < 0xDC00 <= Number(second) < 0xE000
  }

  /** The text it stands for. */
  function Meaning(form: Form, following: seq<Scalar>, kind: Kind): seq<Scalar>
    requires Fits(form, following, kind)
  {
    match form
    case AsIs(c) => [c]
    case Return(_) => [0x0A]
    case Continued(_) => []
    case Letter(c) =>
      [if c == 0x62 then 0x08 else if c == 0x66 then 0x0C else if c == 0x6E then 0x0A else if c == 0x72 then 0x0D
       else if c == 0x74 then 0x09 else 0x0B]
    case Itself(c) => [c]
    case Null => [0]
    case TwoDigits(high, low) => [16 * high.value + low.value]
    case FourNumerals(ds) => [Number(ds)]
    case InBraces(ds) => [Number(ds)]
    case Halves(first, second) => [0x1_0000 + 0x400 * (Number(first) - 0xD800) + (Number(second) - 0xDC00)]
  }

  function AllChars(forms: seq<Form>): seq<Scalar> {
    if forms == [] then [] else Chars(forms[0]) + AllChars(forms[1..])
  }

  predicate AllFit(forms: seq<Form>, kind: Kind) {
    forms == [] || (Fits(forms[0], AllChars(forms[1..]), kind) && AllFit(forms[1..], kind))
  }

  function AllMeaning(forms: seq<Form>, kind: Kind): seq<Scalar>
    requires AllFit(forms, kind)
  {
    if forms == [] then [] else Meaning(forms[0], AllChars(forms[1..]), kind) + AllMeaning(forms[1..], kind)
  }

  // ---- digits

  lemma NumeralIs(d: Digit)
    ensures IsHex(Numeral(d)) && HexValue(Numeral(d)) == d.value
  {
  }

  lemma NumeralOf(c: Scalar) returns (d: Digit)
    requires IsHex(c)
    ensures Numeral(d) == c
  {
    d := if c <= 0x39 then Digit(c - 0x30, false) else if c <= 0x46 then Digit(c - 0x41 + 10, true)
         else Digit(c - 0x61 + 10, false);
  }

  lemma {:induction false} NumeralsOf(s: seq<Scalar>) returns (ds: seq<Digit>)
    requires AllHex(s)
    ensures Numerals(ds) == s
  {
    if s == [] {
      ds := [];
    } else {
      var d := NumeralOf(s[0]);
      var rest := NumeralsOf(s[1..]);
      ds := [d] + rest;
    }
  }

  lemma {:induction false} LastDigit(ds: seq<Digit>)
    requires ds != []
    ensures Number(ds) == Number(ds[..|ds| - 1]) * 16 + ds[|ds| - 1].value
  {
    if |ds| > 1 {
      var front := ds[..|ds| - 1];
      LastDigit(ds[1..]);
      assert ds[1..][..|ds| - 2] == front[1..];
      assert Power16(|ds| - 1) == Power16(|ds| - 2) * 16;
      assert ds[0].value * (Power16(|ds| - 2) * 16) == ds[0].value * Power16(|ds| - 2) * 16;
    } else {
      assert ds[1..] == [] && Power16(0) == 1;
    }
  }

  lemma {:induction false} NumeralsValue(ds: seq<Digit>)
    ensures AllHex(Numerals(ds)) && MV(Numerals(ds)) == Number(ds)
  {
    assert AllHex(Numerals(ds)) by {
      forall i | 0 <= i < |ds|
        ensures IsHex(Numerals(ds)[i])
      {
        NumeralIs(ds[i]);
      }
    }
    if ds != [] {
      var n := |ds| - 1;
      NumeralsValue(ds[..n]);
      assert Numerals(ds)[..n] == Numerals(ds[..n]);
      NumeralIs(ds[n]);
      LastDigit(ds);
    }
  }

  // ---- what is written is read

  predicate Takes(s: seq<Scalar>, kind: Kind, source: seq<Scalar>, text: seq<Scalar>) {
    s != [] && Next(s, kind).Take? && Next(s, kind).step.Source() == source && Next(s, kind).step.Value() == text
  }

  lemma FormReads(form: Form, following: seq<Scalar>, kind: Kind)
    requires Fits(form, following, kind)
    ensures Takes(Chars(form) + following, kind, Chars(form), Meaning(form, following, kind))
  {
    hide HexRun, MV, Numerals, Number;
    match form
    case TwoDigits(high, low) => TwoDigitsRead(high, low, following, kind);
    case FourNumerals(ds) => FourNumeralsRead(ds, following, kind);
    case InBraces(ds) => BracesRead(ds, following, kind);
    case Halves(first, second) => HalvesRead(first, second, following, kind);
    case _ => {
      hide Unicode;
      assert (Chars(form) + following)[..|Chars(form)|] == Chars(form);
    }
  }

  lemma TwoDigitsRead(high: Digit, low: Digit, following: seq<Scalar>, kind: Kind)
    ensures var chars := Chars(TwoDigits(high, low)); Takes(chars + following, kind, chars, [16 * high.value + low.value])
  {
    hide Unicode;
    NumeralIs(high);
    NumeralIs(low);
    var chars := Chars(TwoDigits(high, low));
    assert (chars + following)[..4] == chars;
  }

  lemma FourNumeralsRead(ds: seq<Digit>, following: seq<Scalar>, kind: Kind)
    requires |ds| == 4 && IsScalar(Number(ds))
    ensures var chars := Chars(FourNumerals(ds)); Takes(chars + following, kind, chars, [Number(ds)])
  {
    hide Next, HexRun, MV, Number, Numerals;
    var chars := Chars(FourNumerals(ds));
    var s := chars + following;
    NumeralsValue(ds);
    FourParts(s, Numerals(ds), following);
    FourRead(s, kind);
    assert s[..6] == chars;
  }

  lemma FourParts(s: seq<Scalar>, numerals: seq<Scalar>, following: seq<Scalar>)
    requires |numerals| == 4 && AllHex(numerals) && s == [0x5C, 0x75] + numerals + following
    ensures FourHex(s[2..]) && s[2..6] == numerals && s[2] != 0x7B
  {
    assert s[2..6] == numerals;
    assert forall i :: 0 <= i < 4 ==> s[2..][i] == numerals[i];
    assert s[2] == numerals[0] && IsHex(numerals[0]);
  }

  lemma BracesRead(ds: seq<Digit>, following: seq<Scalar>, kind: Kind)
    requires ds != [] && IsScalar(Number(ds))
    ensures var chars := Chars(InBraces(ds)); Takes(chars + following, kind, chars, [Number(ds)])
  {
    hide Next, HexRun, MV, Number, Numerals;
    var chars, n := Chars(InBraces(ds)), |ds|;
    var s := chars + following;
    NumeralsValue(ds);
    assert s[3..][..n] == Numerals(ds) && s[3..][n] == 0x7D == s[3 + n] && s[..4 + n] == chars;
    HexRunIs(s[3..], n);
    BracedReads(s, kind);
  }

  lemma HalvesRead(first: seq<Digit>, second: seq<Digit>, following: seq<Scalar>, kind: Kind)
    requires Fits(Halves(first, second), following, kind)
    ensures var form := Halves(first, second);
            Takes(Chars(form) + following, kind, Chars(form), Meaning(form, following, kind))
  {
    hide Next, HexRun, MV, Number, Numerals;
    var chars := Chars(Halves(first, second));
    var s := chars + following;
    NumeralsValue(first);
    NumeralsValue(second);
    HalvesParts(s, Numerals(first), Numerals(second), following);
    FourRead(s, kind);
    assert s[..12] == chars;
  }

  lemma HalvesParts(s: seq<Scalar>, first: seq<Scalar>, second: seq<Scalar>, following: seq<Scalar>)
    requires |first| == |second| == 4 && AllHex(first) && AllHex(second)
    requires s == [0x5C, 0x75] + first + [0x5C, 0x75] + second + following
    ensures FourHex(s[2..]) && FourHex(s[8..]) && s[2..6] == first && s[8..12] == second && s[2] != 0x7B
  {
    var rest := [0x5C, 0x75] + second + following;
    assert s == [0x5C, 0x75] + first + rest;
    FourParts(s, first, rest);
    FourParts(rest, second, following);
    assert s[8..] == rest[2..] && s[8..12] == rest[2..6];
  }

  // ---- what is read is so written

  lemma ReadIsForm(s: seq<Scalar>, kind: Kind) returns (form: Form)
    requires s != [] && Next(s, kind).Take?
    ensures var n := |Chars(form)|;
            n <= |s| && s[..n] == Chars(form) && Fits(form, s[n..], kind)
  {
    hide HexRun, MV, Numerals, Number;
    if s[0] != 0x5C {
      form := if kind.TemplateLiteral? && s[0] == 0x0D then Return(|s| > 1 && s[1] == 0x0A) else AsIs(s[0]);
    } else if |s| > 1 && s[1] == 0x75 {
      form := UnicodeIsForm(s, kind);
    } else {
      hide Unicode;
      var c := s[1];
      if c == 0x0D {
        form := Continued(if |s| > 2 && s[2] == 0x0A then [0x0D, 0x0A] else [0x0D]);
      } else if c == 0x0A || c == 0x2028 || c == 0x2029 {
        form := Continued([c]);
      } else if c == 0x30 {
        form := Null;
      } else if c == 0x78 {
        var high := NumeralOf(s[2]);
        var low := NumeralOf(s[3]);
        form := TwoDigits(high, low);
      } else if c == 0x62 || c == 0x66 || c == 0x6E || c == 0x72 || c == 0x74 || c == 0x76 {
        form := Letter(c);
      } else {
        form := Itself(c);
      }
    }
  }

  lemma UnicodeIsForm(s: seq<Scalar>, kind: Kind) returns (form: Form)
    requires |s| > 1 && s[0] == 0x5C && s[1] == 0x75 && Next(s, kind).Take?
    ensures var n := |Chars(form)|;
            n <= |s| && s[..n] == Chars(form) && Fits(form, s[n..], kind)
  {
    hide *;
    if |s| > 2 && s[2] == 0x7B {
      form := BracesAre(s, kind);
    } else {
      form := NumeralsAre(s, kind);
    }
  }

  lemma BracesAre(s: seq<Scalar>, kind: Kind) returns (form: Form)
    requires |s| > 2 && s[0] == 0x5C && s[1] == 0x75 && s[2] == 0x7B && Next(s, kind).Take?
    ensures var n := |Chars(form)|;
            n <= |s| && s[..n] == Chars(form) && Fits(form, s[n..], kind)
  {
    hide Next, HexRun, MV, Number, Numerals;
    BracedReads(s, kind);
    var n := HexRun(s[3..]);
    var ds := NumeralsOf(s[3..][..n]);
    NumeralsValue(ds);
    form := InBraces(ds);
    assert s[..4 + n] == [0x5C, 0x75, 0x7B] + s[3..][..n] + [0x7D];
  }

  lemma NumeralsAre(s: seq<Scalar>, kind: Kind) returns (form: Form)
    requires |s| > 1 && s[0] == 0x5C && s[1] == 0x75 && (|s| > 2 ==> s[2] != 0x7B) && Next(s, kind).Take?
    ensures var n := |Chars(form)|;
            n <= |s| && s[..n] == Chars(form) && Fits(form, s[n..], kind)
  {
    hide Next, HexRun, MV, Number, Numerals, AllHex, FourHex;
    FourRead(s, kind);
    FourSlices(s);
    var first := NumeralsOf(s[2..6]);
    NumeralsValue(first);
    if IsScalar(Number(first)) {
      form := FourNumerals(first);
    } else {
      var second := NumeralsOf(s[8..12]);
      NumeralsValue(second);
      form := Halves(first, second);
    }
  }

  lemma FourSlices(s: seq<Scalar>)
    requires |s| >= 6 && s[0] == 0x5C && s[1] == 0x75
    ensures s[..6] == [0x5C, 0x75] + s[2..6]
    ensures |s| >= 12 && s[6] == 0x5C && s[7] == 0x75 ==> s[..12] == [0x5C, 0x75] + s[2..6] + [0x5C, 0x75] + s[8..12]
  {
  }

  // ---- whole contents

  lemma {:induction false} WrittenScans(forms: seq<Form>, kind: Kind)
    requires AllFit(forms, kind)
    ensures Scan(AllChars(forms), kind).ending.Complete?
    ensures TextOf(Scan(AllChars(forms), kind).steps) == AllMeaning(forms, kind)
  {
    hide Next, Fits, Chars, Meaning, Scan;
    if forms == [] {
      NothingScans(kind);
    } else {
      var rest := AllChars(forms[1..]);
      FormReads(forms[0], rest, kind);
      WrittenScans(forms[1..], kind);
      TakenScans(AllChars(forms), kind, Chars(forms[0]), rest);
    }
  }

  lemma NothingScans(kind: Kind)
    ensures Scan([], kind).ending.Complete? && TextOf(Scan([], kind).steps) == []
  {
  }

  lemma TakenScans(s: seq<Scalar>, kind: Kind, source: seq<Scalar>, rest: seq<Scalar>)
    requires s == source + rest && s != [] && Next(s, kind).Take? && Next(s, kind).step.Source() == source
    ensures Scan(s, kind).ending == Scan(rest, kind).ending
    ensures TextOf(Scan(s, kind).steps) == Next(s, kind).step.Value() + TextOf(Scan(rest, kind).steps)
  {
    hide Next;
    var step := Next(s, kind).step;
    ScanTakes(s, kind, step);
    assert s[|source|..] == rest;
    assert ([step] + Scan(rest, kind).steps)[1..] == Scan(rest, kind).steps;
  }

  lemma {:induction false} ScanIsWritten(s: seq<Scalar>, kind: Kind) returns (forms: seq<Form>)
    requires Scan(s, kind).ending.Complete?
    ensures AllFit(forms, kind) && AllChars(forms) == s
    decreases |s|
  {
    hide Next, Fits, Chars, Meaning;
    if s == [] {
      forms := [];
    } else {
      var form := ReadIsForm(s, kind);
      var n := |Chars(form)|;
      var rest := s[n..];
      assert s == Chars(form) + rest;
      FormReads(form, rest, kind);
      NextConsumes(s, kind);
      TakenScans(s, kind, Chars(form), rest);
      var others := ScanIsWritten(rest, kind);
      forms := [form] + others;
      assert forms[1..] == others;
    }
  }

  /** Decoding a literal gives a text exactly when the literal can be written with these forms to mean it. */
  lemma WrittenExactly(content: seq<Scalar>, start: nat, kind: Kind, text: seq<Scalar>)
    ensures DecodesTo(content, start, kind, text)
       <==> exists forms :: AllFit(forms, kind) && AllChars(forms) == content && AllMeaning(forms, kind) == text
  {
    hide Scan, Next, TextOf, Encode, AllFit, AllChars, AllMeaning, InputMap.Free;
    FreeOutcome(content, start, kind);
    if DecodesTo(content, start, kind, text) {
      var forms := ScanIsWritten(content, kind);
      WrittenScans(forms, kind);
      EncodeInjective(text, TextOf(Scan(content, kind).steps));
    }
    if forms :| AllFit(forms, kind) && AllChars(forms) == content && AllMeaning(forms, kind) == text {
      WrittenScans(forms, kind);
    }
  }
}
