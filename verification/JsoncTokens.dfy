/** The tokens of JSONC as they are written, in numbers: a string's characters are taken one or, behind a backslash,
    two at a time, so nothing here counts backslashes or looks for an end.  Every text is written with such tokens
    in one way, and the two normalizing passes are what these tokens say. */
module JsoncTokens {
  import opened Utf8
  import opened Jsonc
  import opened Normalizer

  datatype Unit =
    | Simple(c: Scalar)
    | Escaped(c: Scalar)
    | Dangling  // a backslash that the text ends with

  datatype Token =
    | Other(c: Scalar)
    | Text(units: seq<Unit>, closed: bool)
    | LineComment(body: seq<Scalar>)
    | BlockComment(body: seq<Scalar>, closed: bool)

  function UnitChars(unit: Unit): seq<Scalar> {
    match unit
    case Simple(c) => [c]
    case Escaped(c) => [0x5C, c]
    case Dangling => [0x5C]
  }

  function AllUnits(units: seq<Unit>): seq<Scalar> {
    if units == [] then [] else UnitChars(units[0]) + AllUnits(units[1..])
  }

  /** The units of one string; only a string that is never closed can end in a lone backslash. */
  predicate UnitsFit(units: seq<Unit>, closed: bool) {
    if units == [] then true
    else
      && (units[0].Simple? ==> units[0].c != 0x22 && units[0].c != 0x5C)
      && (units[0].Dangling? ==> !closed && |units| == 1)
      && UnitsFit(units[1..], closed)
  }

  function Chars(token: Token): seq<Scalar> {
    match token
    case Other(c) => [c]
    case Text(units, closed) => [0x22] + AllUnits(units) + if closed then [0x22] else []
    case LineComment(body) => [0x2F, 0x2F] + body
    case BlockComment(body, closed) => [0x2F, 0x2A] + body + if closed then [0x2A, 0x2F] else []
  }

  /** The token may be written so, where `following` comes next. */
  predicate Fits(token: Token, following: seq<Scalar>, comments: bool) {
    match token
    case Other(c) =>
      c != 0x22 && !(comments && c == 0x2F && following != [] && (following[0] == 0x2F || following[0] == 0x2A))
    case Text(units, closed) => UnitsFit(units, closed) && (closed || following == [])
    case LineComment(body) => comments && 0x0A !in body && (following == [] || following[0] == 0x0A)
    case BlockComment(body, closed) => comments && NeverCloses(body) && (closed || following == [])
  }

  /** No star in the body has a slash right after it. */
  predicate NeverCloses(body: seq<Scalar>) {
    forall i :: 0 < i < |body| ==> !(body[i - 1] == 0x2A && body[i] == 0x2F)
  }

  function KindOfToken(token: Token): Kind {
    match token
    case Other(_) => Plain
    case Text(_, _) => Quoted
    case LineComment(_) => Comment
    case BlockComment(_, _) => Comment
  }

  function AllChars(tokens: seq<Token>): seq<Scalar> {
    if tokens == [] then [] else Chars(tokens[0]) + AllChars(tokens[1..])
  }

  predicate AllFit(tokens: seq<Token>, comments: bool) {
    tokens == [] || (Fits(tokens[0], AllChars(tokens[1..]), comments) && AllFit(tokens[1..], comments))
  }

  function AllKinds(tokens: seq<Token>): seq<Kind> {
    if tokens == [] then []
    else seq(|Chars(tokens[0])|, _ => KindOfToken(tokens[0])) + AllKinds(tokens[1..])
  }

  /** A space for each byte that spells the character in UTF-8. */
  function Masks(c: Scalar): seq<Scalar> {
    if c == 0x0A then [0x0A] else seq(|EncodeScalar(c)|, _ => 0x20)
  }

  function AllMasks(s: seq<Scalar>): seq<Scalar> {
    if s == [] then [] else Masks(s[0]) + AllMasks(s[1..])
  }

  /** Comments masked, everything else as it was. */
  function AllStripped(tokens: seq<Token>): seq<Scalar> {
    if tokens == [] then []
    else
      (match tokens[0]
       case Other(c) => [c]
       case Text(_, _) => Chars(tokens[0])
       case LineComment(_) => AllMasks(Chars(tokens[0]))
       case BlockComment(_, _) => AllMasks(Chars(tokens[0])))
      + AllStripped(tokens[1..])
  }

  // ---- one token, written and read

  ghost predicate Reads(s: seq<Scalar>, comments: bool, n: nat, kind: Kind) {
    s != [] && TokenLength(s, comments) == n && KindOf(s, comments) == kind
  }

  lemma TokenReads(token: Token, following: seq<Scalar>, comments: bool)
    requires Fits(token, following, comments)
    ensures Reads(Chars(token) + following, comments, |Chars(token)|, KindOfToken(token))
  {
    hide Reads, AllUnits, UnitsFit, NeverCloses;
    match token
    case Other(c) => OtherReads(c, following, comments);
    case Text(units, closed) => TextReads(units, closed, following, comments);
    case LineComment(body) => LineReads(body, following);
    case BlockComment(body, closed) => BlockReads(body, closed, following);
  }

  lemma OtherReads(c: Scalar, following: seq<Scalar>, comments: bool)
    requires Fits(Other(c), following, comments)
    ensures Reads([c] + following, comments, 1, Plain)
  {
    assert following != [] ==> ([c] + following)[1] == following[0];
  }

  lemma TextReads(units: seq<Unit>, closed: bool, following: seq<Scalar>, comments: bool)
    requires UnitsFit(units, closed) && (closed || following == [])
    ensures var chars := Chars(Text(units, closed)); Reads(chars + following, comments, |chars|, Quoted)
  {
    hide InsideString, Reads, AllUnits, UnitsFit;
    var s := Chars(Text(units, closed)) + following;
    StringOpens(s);
    assert s[1..] == AllUnits(units) + ((if closed then [0x22] else []) + following);
    UnitsRead(s, 1, units, closed, following, comments);
  }

  lemma {:induction false} UnitsRead(s: seq<Scalar>, j: nat, units: seq<Unit>, closed: bool, following: seq<Scalar>, comments: bool)
    requires UnitsFit(units, closed) && (closed || following == []) && InsideString(s, j, false)
    requires s[j..] == AllUnits(units) + ((if closed then [0x22] else []) + following)
    ensures Reads(s, comments, |s| - |following|, Quoted)
    decreases |units|
  {
    hide InsideString, TokenLength, KindOf, UnitChars;
    StringStarts(s, j);
    var tail := (if closed then [0x22] else []) + following;
    if units == [] {
      if closed {
        assert s[j] == s[j..][0] == 0x22;
        StringCloses(s, j, comments);
      } else {
        StringReaches(s, j, false, comments);
      }
    } else if units[0].Dangling? {
      assert units[1..] == [] && AllUnits(units) == UnitChars(units[0]);
      DanglingReads(s, j, comments);
    } else {
      var rest := AllUnits(units[1..]);
      assert s[j..] == UnitChars(units[0]) + (rest + tail);
      UnitReads(s, j, units[0], rest + tail);
      UnitsRead(s, j + |UnitChars(units[0])|, units[1..], closed, following, comments);
    }
  }

  lemma DanglingReads(s: seq<Scalar>, j: nat, comments: bool)
    requires InsideString(s, j, false) && s[j..] == UnitChars(Dangling)
    ensures Reads(s, comments, |s|, Quoted)
  {
    hide InsideString, TokenLength, KindOf;
    StringStarts(s, j);
    assert s[j] == s[j..][0] && |s[j..]| == 1;
    StringGoesOn(s, j, false);
    StringReaches(s, j + 1, true, comments);
  }

  lemma UnitReads(s: seq<Scalar>, j: nat, unit: Unit, more: seq<Scalar>)
    requires InsideString(s, j, false) && s[j..] == UnitChars(unit) + more
    requires !unit.Dangling? && (unit.Simple? ==> unit.c != 0x22 && unit.c != 0x5C)
    ensures var next := j + |UnitChars(unit)|;
            next <= |s| && InsideString(s, next, false) && s[next..] == more
  {
    hide InsideString;
    StringStarts(s, j);
    assert s[j] == s[j..][0];
    StringGoesOn(s, j, false);
    if unit.Escaped? {
      assert s[j + 1] == s[j..][1];
      StringGoesOn(s, j + 1, true);
    }
    assert s[j + |UnitChars(unit)|..] == s[j..][|UnitChars(unit)|..];
  }

  lemma StringStarts(s: seq<Scalar>, j: nat)
    requires InsideString(s, j, false)
    ensures s != [] && 0 < j <= |s| && TokenLength(s, true) <= |s|
  {
  }

  lemma LineReads(body: seq<Scalar>, following: seq<Scalar>)
    requires 0x0A !in body && (following == [] || following[0] == 0x0A)
    ensures Reads([0x2F, 0x2F] + body + following, true, 2 + |body|, Comment)
  {
    var s, n := [0x2F, 0x2F] + body + following, 2 + |body|;
    assert s[..n] == [0x2F, 0x2F] + body;
    forall i | 2 <= i < n
      ensures !EndsLine(s, i)
    {
      assert s[i] == body[i - 2];
    }
    assert n < |s| ==> s[n] == following[0] && EndsLine(s, n);
    assert LineEnd(s) >= n;
  }

  lemma BlockReads(body: seq<Scalar>, closed: bool, following: seq<Scalar>)
    requires NeverCloses(body) && (closed || following == [])
    ensures var chars := Chars(BlockComment(body, closed)); Reads(chars + following, true, |chars|, Comment)
  {
    var chars := Chars(BlockComment(body, closed));
    var s, m := chars + following, 2 + |body|;
    assert forall i :: 2 <= i < m ==> s[i] == body[i - 2];
    assert closed ==> s[m] == 0x2A && s[m + 1] == 0x2F;
    forall i | 3 <= i < m + 1 && i < |s|
      ensures !EndsBlock(s, i)
    {
      if i < m {
        assert !(body[i - 3] == 0x2A && body[i - 2] == 0x2F);
      }
    }
    var k := BlockEnd(s);
    if closed {
      assert EndsBlock(s, m + 1);
    }
    assert k < |s| ==> EndsBlock(s, k);
  }

  // ---- every text is so written

  lemma TokenIs(s: seq<Scalar>, comments: bool) returns (token: Token)
    requires s != []
    ensures var n := |Chars(token)|;
            n <= |s| && s[..n] == Chars(token) && Fits(token, s[n..], comments)
  {
    if s[0] == 0x22 {
      StringOpens(s);
      var units, closed := StringIs(s, 1);
      token := Text(units, closed);
      var n := 1 + |AllUnits(units)| + if closed then 1 else 0;
      assert s[..n] == [s[0]] + s[1..n];
      assert Chars(token) == [0x22] + (AllUnits(units) + if closed then [0x22] else []);
    } else if comments && StartsLine(s) {
      token := LineIs(s);
    } else if comments && StartsBlock(s) {
      token := BlockIs(s);
    } else {
      token := Other(s[0]);
    }
  }

  lemma LineIs(s: seq<Scalar>) returns (token: Token)
    requires StartsLine(s)
    ensures var n := |Chars(token)|;
            n <= |s| && s[..n] == Chars(token) && Fits(token, s[n..], true)
  {
    var n := LineEnd(s);
    var body := s[2..n];
    token := LineComment(body);
    assert s[..n] == [s[0], s[1]] + body;
    forall i | 0 <= i < |body|
      ensures body[i] != 0x0A
    {
      assert !EndsLine(s, i + 2);
    }
  }

  lemma BlockIs(s: seq<Scalar>) returns (token: Token)
    requires StartsBlock(s)
    ensures var n := |Chars(token)|;
            n <= |s| && s[..n] == Chars(token) && Fits(token, s[n..], true)
  {
    var k := BlockEnd(s);
    var closed := k < |s|;
    var m := if closed then k - 1 else |s|;
    if closed {
      assert EndsBlock(s, k);
      assert s[..k + 1] == s[..m] + [s[k - 1], s[k]];
    }
    var body := s[2..m];
    assert s[..m] == [s[0], s[1]] + body;
    token := BlockComment(body, closed);
    forall i | 0 < i < |body|
      ensures !(body[i - 1] == 0x2A && body[i] == 0x2F)
    {
      assert !EndsBlock(s, i + 2);
    }
  }

  predicate StringFrom(s: seq<Scalar>, j: nat, units: seq<Unit>, closed: bool) {
    var chars := AllUnits(units) + if closed then [0x22] else [];
    && j + |chars| <= |s| && s[j..j + |chars|] == chars && (!closed ==> j + |chars| == |s|)
    && UnitsFit(units, closed)
  }

  lemma {:induction false} StringIs(s: seq<Scalar>, j: nat) returns (units: seq<Unit>, closed: bool)
    requires InsideString(s, j, false)
    ensures StringFrom(s, j, units, closed)
    decreases |s| - j
  {
    hide InsideString;
    StringStarts(s, j);
    if j == |s| {
      units, closed := [], false;
    } else if s[j] == 0x22 {
      units, closed := [], true;
    } else if s[j] == 0x5C && j + 1 == |s| {
      units, closed := [Dangling], false;
      assert units[1..] == [] && AllUnits(units) == [0x5C];
    } else {
      hide StringFrom, UnitsFit;
      StringGoesOn(s, j, false);
      if s[j] == 0x5C {
        StringGoesOn(s, j + 1, true);
        units, closed := StringIs(s, j + 2);
        OneUnit(s, j, Escaped(s[j + 1]), units, closed);
        units := [Escaped(s[j + 1])] + units;
      } else {
        units, closed := StringIs(s, j + 1);
        OneUnit(s, j, Simple(s[j]), units, closed);
        units := [Simple(s[j])] + units;
      }
    }
  }

  lemma OneUnit(s: seq<Scalar>, j: nat, unit: Unit, rest: seq<Unit>, closed: bool)
    requires !unit.Dangling? && (unit.Simple? ==> unit.c != 0x22 && unit.c != 0x5C)
    requires var next := j + |UnitChars(unit)|;
             next <= |s| && s[j..next] == UnitChars(unit) && StringFrom(s, next, rest, closed)
    ensures StringFrom(s, j, [unit] + rest, closed)
  {
    OneMoreUnit(unit, rest, closed);
    var next, chars := j + |UnitChars(unit)|, AllUnits(rest) + if closed then [0x22] else [];
    assert s[j..next + |chars|] == s[j..next] + s[next..next + |chars|];
  }

  lemma OneMoreUnit(unit: Unit, rest: seq<Unit>, closed: bool)
    requires UnitsFit(rest, closed) && !unit.Dangling? && (unit.Simple? ==> unit.c != 0x22 && unit.c != 0x5C)
    ensures AllUnits([unit] + rest) == UnitChars(unit) + AllUnits(rest) && UnitsFit([unit] + rest, closed)
  {
    assert ([unit] + rest)[1..] == rest;
  }

  lemma {:induction false} WrittenAs(s: seq<Scalar>, comments: bool) returns (tokens: seq<Token>)
    ensures AllFit(tokens, comments) && AllChars(tokens) == s
    decreases |s|
  {
    hide Fits, Chars;
    if s == [] {
      tokens := [];
    } else {
      var token := TokenIs(s, comments);
      var n := |Chars(token)|;
      TokenReads(token, s[n..], comments);
      assert s == s[..n] + s[n..];
      var rest := WrittenAs(s[n..], comments);
      tokens := [token] + rest;
      assert tokens[1..] == rest;
    }
  }

  // ---- whole texts

  lemma {:induction false} KindsExactly(tokens: seq<Token>, comments: bool)
    requires AllFit(tokens, comments)
    ensures Kinds(AllChars(tokens), comments) == AllKinds(tokens)
  {
    hide Fits, Chars, TokenLength, KindOf, KindOfToken;
    if tokens != [] {
      var rest := AllChars(tokens[1..]);
      TokenReads(tokens[0], rest, comments);
      KindsExactly(tokens[1..], comments);
      assert AllChars(tokens)[|Chars(tokens[0])|..] == rest;
    }
  }

  lemma {:induction false} MasksConcat(a: seq<Scalar>, b: seq<Scalar>)
    ensures AllMasks(a + b) == AllMasks(a) + AllMasks(b)
  {
    hide AllMasks, Masks;
    if a == [] {
      assert a + b == b;
      NoMasks(a);
    } else {
      MasksConcat(a[1..], b);
      FirstMask(a);
      FirstMask(a + b);
      assert (a + b)[1..] == a[1..] + b;
    }
  }

  lemma NoMasks(s: seq<Scalar>)
    requires s == []
    ensures AllMasks(s) == []
  {
  }

  lemma FirstMask(s: seq<Scalar>)
    requires s != []
    ensures AllMasks(s) == Masks(s[0]) + AllMasks(s[1..])
  {
  }

  lemma {:induction false} MasksAll(s: seq<Scalar>)
    ensures BlankAll(s) == AllMasks(s)
  {
    if s != [] {
      var n := |s| - 1;
      MasksAll(s[..n]);
      MasksConcat(s[..n], [s[n]]);
      assert s == s[..n] + [s[n]];
      OneMask(s[n]);
    }
  }

  lemma OneMask(c: Scalar)
    ensures AllMasks([c]) == Masks(c) == BlankScalar(c)
  {
    assert [c][1..] == [];
  }

  /** What the comment pass writes of a text is what its tokens say, whichever tokens spell it. */
  lemma {:induction false} StrippedExactly(tokens: seq<Token>)
    requires AllFit(tokens, true)
    ensures Blanked(AllChars(tokens)) == AllStripped(tokens)
  {
    hide Fits, Chars, TokenLength, KindOf, AllMasks, BlankAll;
    if tokens == [] {
    } else {
      var s, n, rest := AllChars(tokens), |Chars(tokens[0])|, AllChars(tokens[1..]);
      TokenReads(tokens[0], rest, true);
      StrippedExactly(tokens[1..]);
      BlankedToken(s, n, KindOfToken(tokens[0]));
      assert s[..n] == Chars(tokens[0]) && s[n..] == rest;
      MasksAll(s[..n]);
      OtherChars(tokens[0]);
    }
  }

  lemma OtherChars(token: Token)
    ensures token.Other? ==> Chars(token) == [token.c]
  {
  }

  /** The White_Space property, scalar by scalar. */
  const WHITE_SPACE: set<int> := {
    0x09, 0x0A, 0x0B, 0x0C, 0x0D, 0x20, 0x85, 0xA0, 0x1680, 0x2000, 0x2001, 0x2002, 0x2003, 0x2004, 0x2005, 0x2006,
    0x2007, 0x2008, 0x2009, 0x200A, 0x2028, 0x2029, 0x202F, 0x205F, 0x3000 }

  /** The comma at `k` is outside strings, and white space alone stands between it and a closing bracket at `n`. */
  ghost predicate TrailsTo(s: seq<Scalar>, k: nat, n: nat) {
    && k < n < |s| && s[k] == 0x2C && Kinds(s, false)[k] == Plain
    && (s[n] == 0x7D || s[n] == 0x5D) && forall i :: k < i < n ==> s[i] in WHITE_SPACE
  }

  /** A scalar is changed by the comma pass exactly when it is such a comma, and then to a space. */
  lemma UncommaExactly(s: seq<Scalar>, k: nat)
    requires k < |s|
    ensures Uncomma(s)[k] == if exists n: nat :: TrailsTo(s, k, n) then 0x20 else s[k]
    ensures Uncomma(s)[k] != s[k] <==> exists n: nat :: TrailsTo(s, k, n)
  {
    hide Kinds;
    if TrailingComma(s, k) {
      var n :| k < n < |s| && IsCloser(s[n]) && BlankBetween(s, k, n);
      assert TrailsTo(s, k, n);
    }
    if n: nat :| TrailsTo(s, k, n) {
      assert IsCloser(s[n]) && BlankBetween(s, k, n);
    }
  }

  /** Normalizing is the comma pass over what the comment pass writes. */
  lemma NormalizedExactly(tokens: seq<Token>, k: nat)
    requires AllFit(tokens, true) && k < |AllStripped(tokens)|
    ensures var stripped, normalized := AllStripped(tokens), Normalized(AllChars(tokens));
            && |normalized| == |stripped|
            && normalized[k] == if exists n: nat :: TrailsTo(stripped, k, n) then 0x20 else stripped[k]
  {
    hide AllFit, AllStripped, AllChars, Blanked, Uncomma, TrailsTo;
    StrippedExactly(tokens);
    UncommaExactly(AllStripped(tokens), k);
  }
}
