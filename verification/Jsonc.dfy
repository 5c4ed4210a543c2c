/** What is a string, what is a comment, and what normalizing does to them: the meaning of the two passes
    of `normalize_jsonc` in `crates/intlify_cli/src/config.rs`. */
module Jsonc {
  import opened Utf8

  const QUOTE: Scalar := 0x22
  const BACKSLASH: Scalar := 0x5C
  const SLASH: Scalar := 0x2F
  const STAR: Scalar := 0x2A
  const NEWLINE: Scalar := 0x0A
  const SPACE: Scalar := 0x20
  const COMMA: Scalar := 0x2C

  datatype Kind = Plain | Quoted | Comment

  // ---- an independent account of the tokens

  /** The first index from `from` with the property, or `to`. */
  function First(from: nat, to: nat, p: nat -> bool): (k: nat)
    ensures k <= to && (from <= to ==> from <= k)
    ensures forall i :: from <= i < k ==> !p(i)
    ensures from <= k < to ==> p(k)
    ensures from > to ==> k == to
    decreases if from < to then to - from else 0
  {
    if from >= to then to else if p(from) then from else First(from + 1, to, p)
  }

  /** How many backslashes stand right before `k`. */
  function Backslashes(s: seq<Scalar>, k: nat): nat
    requires k <= |s|
  {
    if k > 0 && s[k - 1] == BACKSLASH then 1 + Backslashes(s, k - 1) else 0
  }

  /** A quote closes the string that starts at 0 when the backslashes before it pair up. */
  predicate Closes(s: seq<Scalar>, k: nat) {
    0 < k < |s| && s[k] == QUOTE && Backslashes(s, k) % 2 == 0
  }

  predicate StartsLine(s: seq<Scalar>) {
    |s| > 1 && s[0] == SLASH && s[1] == SLASH
  }

  predicate StartsBlock(s: seq<Scalar>) {
    |s| > 1 && s[0] == SLASH && s[1] == STAR
  }

  predicate EndsLine(s: seq<Scalar>, k: nat) {
    k < |s| && s[k] == NEWLINE
  }

  /** The star and slash that close a block comment both come after the two that open it. */
  predicate EndsBlock(s: seq<Scalar>, k: nat) {
    3 <= k < |s| && s[k - 1] == STAR && s[k] == SLASH
  }

  /** Where the string at the start of `s` is closed, if it is. */
  function StringEnd(s: seq<Scalar>): (k: nat)
    requires s != []
    ensures 1 <= k <= |s| && (forall i :: 1 <= i < k ==> !Closes(s, i)) && (k < |s| ==> Closes(s, k))
  {
    var ends := (k: nat) => Closes(s, k);
    assert forall k: nat {:trigger Closes(s, k)} :: ends(k) == Closes(s, k);
    First(1, |s|, ends)
  }

  function LineEnd(s: seq<Scalar>): (k: nat)
    requires StartsLine(s)
    ensures 2 <= k <= |s| && (forall i :: 2 <= i < k ==> !EndsLine(s, i)) && (k < |s| ==> EndsLine(s, k))
  {
    var ends := (k: nat) => EndsLine(s, k);
    assert forall k: nat {:trigger EndsLine(s, k)} :: ends(k) == EndsLine(s, k);
    First(2, |s|, ends)
  }

  function BlockEnd(s: seq<Scalar>): (k: nat)
    requires StartsBlock(s)
    ensures 2 <= k <= |s| && (forall i :: 3 <= i < k ==> !EndsBlock(s, i)) && (k < |s| ==> EndsBlock(s, k))
  {
    var ends := (k: nat) => EndsBlock(s, k);
    assert forall k: nat {:trigger EndsBlock(s, k)} :: ends(k) == EndsBlock(s, k);
    First(3, |s|, ends)
  }

  function Through(k: nat, size: nat): nat {
    if k < size then k + 1 else size
  }

  function KindOf(s: seq<Scalar>, comments: bool): Kind
    requires s != []
  {
    if s[0] == QUOTE then Quoted
    else if comments && (StartsLine(s) || StartsBlock(s)) then Comment
    else Plain
  }

  /** How far the first token of `s` reaches; one that is not closed reaches the end. */
  function TokenLength(s: seq<Scalar>, comments: bool): (n: nat)
    requires s != []
    ensures 1 <= n <= |s|
  {
    if s[0] == QUOTE then Through(StringEnd(s), |s|)
    else if comments && StartsLine(s) then LineEnd(s)
    else if comments && StartsBlock(s) then Through(BlockEnd(s), |s|)
    else 1
  }

  function Repeat<T>(n: nat, x: T): (r: seq<T>)
    ensures |r| == n && forall i :: 0 <= i < n ==> r[i] == x
  {
    seq(n, _ => x)
  }

  /** What each scalar is part of. */
  function Kinds(s: seq<Scalar>, comments: bool): (kinds: seq<Kind>)
    ensures |kinds| == |s|
    decreases |s|
  {
    if s == [] then []
    else
      var n := TokenLength(s, comments);
      Repeat(n, KindOf(s, comments)) + Kinds(s[n..], comments)
  }

  // ---- what the comment pass is to write

  function BlankScalar(c: Scalar): seq<Scalar> {
    if c == NEWLINE then [NEWLINE] else Repeat(Width(c), SPACE)
  }

  function BlankAll(s: seq<Scalar>): seq<Scalar> {
    if s == [] then [] else BlankAll(s[..|s| - 1]) + BlankScalar(s[|s| - 1])
  }

  function Written(token: seq<Scalar>, kind: Kind): seq<Scalar> {
    if kind == Comment then BlankAll(token) else token
  }

  /** Every comment blanked and everything else left alone. */
  function Blanked(s: seq<Scalar>): seq<Scalar>
    decreases |s|
  {
    if s == [] then []
    else
      var n := TokenLength(s, true);
      Written(s[..n], KindOf(s, true)) + Blanked(s[n..])
  }

  // ---- what the comma pass is to write

  /** `char::is_whitespace`: the White_Space property. */
  predicate IsWhitespace(c: Scalar) {
    || 0x09 <= c <= 0x0D || c == 0x20 || c == 0x85 || c == 0xA0 || c == 0x1680 || 0x2000 <= c <= 0x200A
    || c == 0x2028 || c == 0x2029 || c == 0x202F || c == 0x205F || c == 0x3000
  }

  predicate IsCloser(c: Scalar) {
    c == 0x7D || c == 0x5D
  }

  /** Only whitespace lies between `k` and `n`. */
  predicate BlankBetween(s: seq<Scalar>, k: nat, n: nat)
    requires n <= |s|
  {
    forall i :: k < i < n ==> IsWhitespace(s[i])
  }

  predicate PlainComma(s: seq<Scalar>, k: nat) {
    k < |s| && s[k] == COMMA && Kinds(s, false)[k] == Plain
  }

  /** A comma outside strings with nothing but whitespace before the next closing bracket. */
  predicate TrailingComma(s: seq<Scalar>, k: nat) {
    PlainComma(s, k) && exists n :: k < n < |s| && IsCloser(s[n]) && BlankBetween(s, k, n)
  }

  function Uncomma(s: seq<Scalar>): (r: seq<Scalar>)
    ensures |r| == |s|
    ensures forall k :: 0 <= k < |s| ==> r[k] == if TrailingComma(s, k) then SPACE else s[k]
  {
    seq(|s|, k requires 0 <= k < |s| => if TrailingComma(s, k) then SPACE else s[k])
  }

  function Normalized(s: seq<Scalar>): seq<Scalar> {
    Uncomma(Blanked(s))
  }

  // ---- strings: the token depends on what is inside it only

  lemma {:induction false} BackslashesPrefix(a: seq<Scalar>, b: seq<Scalar>, k: nat)
    requires k <= |a| && k <= |b| && a[..k] == b[..k]
    ensures Backslashes(a, k) == Backslashes(b, k)
  {
    if k > 0 {
      assert a[k - 1] == a[..k][k - 1] && b[k - 1] == b[..k][k - 1];
      assert a[..k - 1] == a[..k][..k - 1] && b[..k - 1] == b[..k][..k - 1];
      BackslashesPrefix(a, b, k - 1);
    }
  }

  /** A closed string is the same token whatever comes after it. */
  lemma ClosedString(s: seq<Scalar>, n: nat, after: seq<Scalar>, comments: bool)
    requires s != [] && s[0] == QUOTE && n == TokenLength(s, true) && (n < |s| || Closes(s, n - 1))
    ensures TokenLength(s[..n] + after, comments) == n
  {
    hide Backslashes, First, StringEnd;
    var u := s[..n] + after;
    forall k | 0 < k < n
      ensures Closes(u, k) == Closes(s, k)
    {
      assert u[..k] == s[..k] && u[k] == s[k];
      BackslashesPrefix(u, s, k);
    }
    assert Closes(s, n - 1);
    assert Closes(u, n - 1) && forall k :: 0 < k < n - 1 ==> !Closes(u, k);
  }

  // ---- relexing what the comment pass wrote

  predicate Harmless(c: Scalar) {
    c == SPACE || c == NEWLINE
  }

  lemma {:induction false} BlankIsHarmless(s: seq<Scalar>)
    ensures forall k :: 0 <= k < |BlankAll(s)| ==> Harmless(BlankAll(s)[k])
    ensures s != [] ==> BlankAll(s) != []
  {
    if s != [] {
      BlankIsHarmless(s[..|s| - 1]);
    }
  }

  lemma {:induction false} HarmlessPrefix(a: seq<Scalar>, b: seq<Scalar>, comments: bool)
    requires forall k :: 0 <= k < |a| ==> Harmless(a[k])
    ensures Kinds(a + b, comments) == Repeat(|a|, Plain) + Kinds(b, comments)
  {
    if a == [] {
      assert a + b == b;
    } else {
      assert (a + b)[0] == a[0] && (a + b)[1..] == a[1..] + b;
      HarmlessPrefix(a[1..], b, comments);
      assert Repeat(|a|, Plain) == Repeat(1, Plain) + Repeat(|a| - 1, Plain);
    }
  }

  /** What the blanked source starts with is what the source did, or something harmless. */
  lemma BlankedHead(s: seq<Scalar>)
    requires s != []
    ensures Blanked(s) != [] && (Blanked(s)[0] == s[0] || Harmless(Blanked(s)[0]))
  {
    var n := TokenLength(s, true);
    BlankIsHarmless(s[..n]);
  }

  /** The kinds to find in what the comment pass wrote: strings where they were, and no comment. */
  function Uncommented(s: seq<Scalar>): seq<Kind>
    decreases |s|
  {
    if s == [] then []
    else
      var n := TokenLength(s, true);
      var kind := KindOf(s, true);
      Repeat(|Written(s[..n], kind)|, if kind == Quoted then Quoted else Plain) + Uncommented(s[n..])
  }

  /** One token of what the comment pass wrote, read again. */
  lemma OneToken(s: seq<Scalar>, comments: bool)
    requires s != []
    ensures var n := TokenLength(s, true);
            var kind := KindOf(s, true);
            var written := Written(s[..n], kind);
            (Kinds(written + Blanked(s[n..]), comments)
             == Repeat(|written|, if kind == Quoted then Quoted else Plain) + Kinds(Blanked(s[n..]), comments))
  {
    hide StringEnd, LineEnd, BlockEnd, Closes, Blanked;
    var n := TokenLength(s, true);
    var rest := Blanked(s[n..]);
    match KindOf(s, true)
    case Comment =>
      BlankIsHarmless(s[..n]);
      HarmlessPrefix(BlankAll(s[..n]), rest, comments);
    case Quoted => QuotedAgain(s, comments);
    case Plain => PlainAgain(s, comments);
  }

  lemma QuotedAgain(s: seq<Scalar>, comments: bool)
    requires s != [] && s[0] == QUOTE
    ensures var n := TokenLength(s, true);
            var rest := Blanked(s[n..]);
            Kinds(s[..n] + rest, comments) == Repeat(n, Quoted) + Kinds(rest, comments)
  {
    hide StringEnd, LineEnd, BlockEnd, Closes;
    var n := TokenLength(s, true);
    var rest := Blanked(s[n..]);
    var u := s[..n] + rest;
    if n == |s| {
      assert s[n..] == [] && rest == [];
      assert u == s;
      assert s[n..] == u[n..] == [];
    } else {
      ClosedString(s, n, rest, comments);
      assert u[n..] == rest && u[0] == s[0];
    }
  }

  lemma PlainAgain(s: seq<Scalar>, comments: bool)
    requires s != [] && KindOf(s, true) == Plain
    ensures var n := TokenLength(s, true);
            var rest := Blanked(s[n..]);
            n == 1 && Kinds(s[..n] + rest, comments) == Repeat(1, Plain) + Kinds(rest, comments)
  {
    hide StringEnd, LineEnd, BlockEnd, Closes, Blanked;
    var rest := Blanked(s[1..]);
    var u := s[..1] + rest;
    assert u[0] == s[0] && u[1..] == rest;
    if |s| > 1 {
      BlankedHead(s[1..]);
      assert u[1] == s[1] || Harmless(u[1]);
    } else {
      NothingBlanked(s[1..]);
    }
    assert KindOf(u, comments) == Plain && TokenLength(u, comments) == 1;
  }

  lemma NothingBlanked(s: seq<Scalar>)
    requires s == []
    ensures Blanked(s) == []
  {
  }

  /** Read again, with or without an eye for comments, the output has its strings where they were and no comment. */
  lemma {:induction false} Relexed(s: seq<Scalar>, comments: bool)
    ensures Kinds(Blanked(s), comments) == Uncommented(s)
    decreases |s|
  {
    if s == [] {
    } else {
      hide Kinds, TokenLength, Written, KindOf;
      var n := TokenLength(s, true);
      Relexed(s[n..], comments);
      OneToken(s, comments);
    }
  }

  lemma {:induction false} UncommentedIs(s: seq<Scalar>)
    ensures Comment !in Uncommented(s)
    decreases |s|
  {
    if s != [] {
      hide Written;
      UncommentedIs(s[TokenLength(s, true)..]);
    }
  }

  lemma {:induction false} NothingToBlank(s: seq<Scalar>)
    requires Comment !in Kinds(s, true)
    ensures Blanked(s) == s
    decreases |s|
  {
    if s != [] {
      var n := TokenLength(s, true);
      var kinds := Kinds(s, true);
      assert kinds[0] == KindOf(s, true);
      assert kinds[n..] == Kinds(s[n..], true);
      assert forall k :: 0 <= k < |kinds[n..]| ==> kinds[n..][k] in kinds;
      NothingToBlank(s[n..]);
      assert s == s[..n] + s[n..];
    }
  }

  /** The comment pass finds no comment in its own output, and so changes nothing the second time. */
  lemma BlankedIdempotent(s: seq<Scalar>)
    ensures Comment !in Kinds(Blanked(s), true)
    ensures Blanked(Blanked(s)) == Blanked(s)
  {
    hide Kinds, Blanked, Uncommented;
    Relexed(s, true);
    UncommentedIs(s);
    NothingToBlank(Blanked(s));
  }
}
