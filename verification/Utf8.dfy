/** Unicode scalar values and their UTF-8 spelling.

    Rust's `char` is a `Scalar` and Rust's `&str` is the `Encode` of a sequence of
    them.  Every offset the producer reports is an offset into the encoded bytes. */
module Utf8 {
  import opened Wrappers

  type Scalar = n: nat | n < 0xD800 || 0xE000 <= n < 0x11_0000
  type Byte = n: nat | n < 0x100

  /** `char::len_utf8`. */
  function Width(c: Scalar): (w: nat)
    ensures 1 <= w <= 4
    ensures w == 1 <==> c < 0x80
  {
    if c < 0x80 then 1 else if c < 0x800 then 2 else if c < 0x1_0000 then 3 else 4
  }

  /** `char::encode_utf8`. */
  function EncodeScalar(c: Scalar): (bs: seq<Byte>)
    ensures |bs| == Width(c)
    ensures c < 0x80 ==> bs == [c]
    ensures c >= 0x80 ==> forall i :: 0 <= i < |bs| ==> bs[i] >= 0x80
  {
    if c < 0x80 then [c]
    else if c < 0x800 then [0xC0 + c / 0x40, 0x80 + c % 0x40]
    else if c < 0x1_0000 then [0xE0 + c / 0x40 / 0x40, 0x80 + c / 0x40 % 0x40, 0x80 + c % 0x40]
    else [0xF0 + c / 0x40 / 0x40 / 0x40, 0x80 + c / 0x40 / 0x40 % 0x40, 0x80 + c / 0x40 % 0x40, 0x80 + c % 0x40]
  }

  function Bits(byte: Byte, base: int): int {
    byte - base
  }

  predicate Continues(byte: Byte) {
    0x80 <= byte <= 0xBF
  }

  /** Section 3 of RFC 3629: which bytes there are, and the scalar their payload bits spell. */
  lemma EncodedBits(c: Scalar)
    ensures var bs := EncodeScalar(c);
            match |bs|
            case 1 => bs[0] == c < 0x80
            case 2 => 0xC2 <= bs[0] <= 0xDF && Continues(bs[1]) && c == Bits(bs[0], 0xC0) * 0x40 + Bits(bs[1], 0x80)
            case 3 => && 0xE0 <= bs[0] <= 0xEF && Continues(bs[1]) && Continues(bs[2])
                      && 0x800 <= c == Bits(bs[0], 0xE0) * 0x1000 + Bits(bs[1], 0x80) * 0x40 + Bits(bs[2], 0x80)
            case 4 => && 0xF0 <= bs[0] <= 0xF4 && Continues(bs[1]) && Continues(bs[2]) && Continues(bs[3])
                      && 0x1_0000 <= c
                         == Bits(bs[0], 0xF0) * 0x4_0000 + Bits(bs[1], 0x80) * 0x1000 + Bits(bs[2], 0x80) * 0x40 + Bits(bs[3], 0x80)
            case _ => false
  {
  }

  function Encode(cs: seq<Scalar>): (bs: seq<Byte>)
    ensures |cs| <= |bs|
    ensures bs == [] <==> cs == []
  {
    if cs == [] then [] else EncodeScalar(cs[0]) + Encode(cs[1..])
  }

  /** How many bytes the scalar that starts with byte `lead` takes. */
  function LeadWidth(lead: Byte): nat {
    if lead < 0x80 then 1 else if lead < 0xE0 then 2 else if lead < 0xF0 then 3 else 4
  }

  lemma LeadWidthOfScalar(c: Scalar)
    ensures LeadWidth(EncodeScalar(c)[0]) == Width(c)
  {
  }

  function Low(byte: Byte, base: nat): nat
    requires base > 0
  {
    byte % base
  }

  /** Take the six payload bits of a continuation byte. */
  function Shift(high: nat, byte: Byte): nat {
    high * 0x40 + Low(byte, 0x40)
  }

  /** `chars().next()` on bytes that hold UTF-8. */
  function FirstScalar(bs: seq<Byte>): Option<Scalar> {
    if bs == [] || |bs| < LeadWidth(bs[0]) then None
    else
      var c: nat :=
        if bs[0] < 0x80 then bs[0]
        else if bs[0] < 0xE0 then Shift(Low(bs[0], 0x20), bs[1])
        else if bs[0] < 0xF0 then Shift(Shift(Low(bs[0], 0x10), bs[1]), bs[2])
        else Shift(Shift(Shift(Low(bs[0], 0x08), bs[1]), bs[2]), bs[3]);
      if c < 0xD800 || 0xE000 <= c < 0x11_0000 then Some(c) else None
  }

  lemma FirstScalarIsHead(bs: seq<Byte>, c: Scalar)
    requires EncodeScalar(c) <= bs
    ensures LeadWidth(bs[0]) == Width(c) && FirstScalar(bs) == Some(c)
  {
    var e := EncodeScalar(c);
    assert forall i :: 0 <= i < |e| ==> bs[i] == e[i];
    if Width(c) == 2 {
      TwoBytes(c);
    } else if Width(c) == 3 {
      ThreeBytes(c);
    } else if Width(c) == 4 {
      FourBytes(c);
    }
  }

  lemma TwoBytes(c: nat)
    requires c < 0x800
    ensures Shift(Low(0xC0 + c / 0x40, 0x20), 0x80 + c % 0x40) == c
  {
    ShiftUndoes(c);
  }

  lemma ThreeBytes(c: nat)
    requires c < 0x1_0000
    ensures Shift(Shift(Low(0xE0 + c / 0x40 / 0x40, 0x10), 0x80 + c / 0x40 % 0x40), 0x80 + c % 0x40) == c
  {
    ShiftUndoes(c / 0x40);
    ShiftUndoes(c);
  }

  lemma FourBytes(c: nat)
    requires c < 0x11_0000
    ensures Shift(Shift(Shift(Low(0xF0 + c / 0x40 / 0x40 / 0x40, 0x08), 0x80 + c / 0x40 / 0x40 % 0x40),
                        0x80 + c / 0x40 % 0x40), 0x80 + c % 0x40) == c
  {
    ShiftUndoes(c / 0x40 / 0x40);
    ShiftUndoes(c / 0x40);
    ShiftUndoes(c);
  }

  lemma ShiftUndoes(c: nat)
    ensures Shift(c / 0x40, 0x80 + c % 0x40) == c
  {
    assert (0x80 + c % 0x40) % 0x40 == c % 0x40;
  }

  lemma {:induction false} EncodeConcat(a: seq<Scalar>, b: seq<Scalar>)
    ensures Encode(a + b) == Encode(a) + Encode(b)
  {
    if a == [] {
      assert a + b == b;
    } else {
      hide EncodeScalar;
      var first := EncodeScalar(a[0]);
      assert (a + b)[0] == a[0] && (a + b)[1..] == a[1..] + b;
      EncodeConcat(a[1..], b);
      assert first + (Encode(a[1..]) + Encode(b)) == (first + Encode(a[1..])) + Encode(b);
    }
  }

  lemma EncodeOne(c: Scalar)
    ensures Encode([c]) == EncodeScalar(c)
  {
    assert Encode([c]) == EncodeScalar(c) + Encode([]);
  }

  lemma {:induction false} EncodeSplit(cs: seq<Scalar>, k: nat)
    requires k <= |cs|
    ensures Encode(cs) == Encode(cs[..k]) + Encode(cs[k..])
    ensures |Encode(cs[..k])| <= |Encode(cs)|
    ensures Encode(cs)[|Encode(cs[..k])|..] == Encode(cs[k..])
  {
    assert cs == cs[..k] + cs[k..];
    EncodeConcat(cs[..k], cs[k..]);
  }

  /** A first byte below 0x80 is a whole scalar, so the cut after it is a scalar boundary. */
  lemma AsciiHead(cs: seq<Scalar>)
    requires cs != []
    ensures Encode(cs) != []
    ensures Encode(cs)[0] < 0x80 <==> cs[0] < 0x80
    ensures cs[0] < 0x80 ==> Encode(cs)[0] == cs[0] && Encode(cs)[1..] == Encode(cs[1..])
  {
    assert Encode(cs) == EncodeScalar(cs[0]) + Encode(cs[1..]);
    if cs[0] < 0x80 {
      assert EncodeScalar(cs[0]) == [cs[0]];
      assert Encode(cs)[1..] == Encode(cs[1..]);
    }
  }

  lemma {:induction false} AsciiOnly(cs: seq<Scalar>)
    requires forall i :: 0 <= i < |cs| ==> cs[i] < 0x80
    ensures Encode(cs) == cs
  {
    if cs != [] {
      AsciiOnly(cs[1..]);
      assert cs == [cs[0]] + cs[1..];
    }
  }

  /** As far as the scalars are ASCII, scalar positions and byte offsets are the same. */
  lemma AsciiPrefix(cs: seq<Scalar>, k: nat)
    requires k <= |cs|
    requires forall i :: 0 <= i < k ==> cs[i] < 0x80
    ensures |Encode(cs[..k])| == k <= |Encode(cs)| && Encode(cs)[k..] == Encode(cs[k..])
    ensures forall i :: 0 <= i < k ==> Encode(cs)[i] == cs[i]
    ensures k < |cs| <==> k < |Encode(cs)|
    ensures k < |cs| ==> (Encode(cs)[k] < 0x80 <==> cs[k] < 0x80)
    ensures k < |cs| && cs[k] < 0x80 ==> Encode(cs)[k] == cs[k]
  {
    AsciiOnly(cs[..k]);
    EncodeSplit(cs, k);
    if k < |cs| {
      AsciiHead(cs[k..]);
      assert Encode(cs)[k] == Encode(cs[k..])[0];
    }
  }

  /** UTF-8 is uniquely decodable. */
  lemma {:induction false} EncodeInjective(a: seq<Scalar>, b: seq<Scalar>)
    requires Encode(a) == Encode(b)
    ensures a == b
  {
    if a == [] || b == [] {
    } else {
      var x, y := EncodeScalar(a[0]), EncodeScalar(b[0]);
      assert Encode(a) == x + Encode(a[1..]) && Encode(b) == y + Encode(b[1..]);
      assert x[0] == Encode(a)[0] == y[0];
      LeadWidthOfScalar(a[0]);
      LeadWidthOfScalar(b[0]);
      assert x == Encode(a)[..|x|] == Encode(b)[..|y|] == y;
      EncodeScalarInjective(a[0], b[0]);
      assert Encode(a[1..]) == Encode(a)[|x|..] == Encode(b[1..]);
      EncodeInjective(a[1..], b[1..]);
      assert a == [a[0]] + a[1..] && b == [b[0]] + b[1..];
    }
  }

  lemma EncodeScalarInjective(a: Scalar, b: Scalar)
    requires EncodeScalar(a) == EncodeScalar(b)
    ensures a == b
  {
    var x, y := EncodeScalar(a), EncodeScalar(b);
    assert Width(a) == Width(b);
    assert forall i :: 0 <= i < |x| ==> x[i] == y[i];
  }
}
